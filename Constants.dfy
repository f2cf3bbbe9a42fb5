/** The data of src/constants.js that the logic depends on. The catalog read
    from registries.json and the package manifest are inputs of the model. */
module Constants {

  /** The built-in mirror names that `delete` never offers. */
  const Whitelist: seq<string> := ["npm", "yarn", "tencent", "cnpm", "taobao", "npmMirror"]
}
