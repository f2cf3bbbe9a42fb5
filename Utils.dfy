/** The string helpers and catalog predicates of src/utils.js. The catalog,
    a module-level import there, is passed in as its key sequence; the
    printing done by `isRegistryNotFound` and `isInternalRegistry` is not
    part of this model. */
module Utils {
  import opened Strings
  import opened Styling

  function Max(a: int, b: int): int
  {
    if a >= b then a else b
  }

  /** `padding(message, before, after)`, each count defaulting to one. */
  function Padding(message: Styled := Unstyled(""), before: nat := 1, after: nat := 1): Styled
  {
    Unstyled(Join(Filled(before, " "), "")) + message + Unstyled(Join(Filled(after, " "), ""))
  }

  /** `padding` shows `before` spaces, the message, then `after` spaces, and
      adds no styling of its own. */
  lemma PaddingLayout(message: Styled, before: nat, after: nat)
    ensures Text(Padding(message, before, after)) == Repeat(' ', before) + Text(message) + Repeat(' ', after)
    ensures forall sp :: sp in Padding(message, before, after) ==> sp in message || sp.style == Plain
  {
    var lead, trail := Join(Filled(before, " "), ""), Join(Filled(after, " "), "");
    assert Padding(message, before, after) == Unstyled(lead) + message + Unstyled(trail);
    JoinFilled(before, ' ');
    JoinFilled(after, ' ');
    TextPaint(Plain, lead);
    TextPaint(Plain, trail);
    TextAppend3(Unstyled(lead), message, Unstyled(trail));
  }

  /** How many dashes `geneDashLine(message, length)` writes. */
  function DashCount(message: string, length: int): (n: nat)
    ensures n >= 1
  {
    if length - |message| + 1 >= 1 then length - |message| + 1 else 1
  }

  /** `geneDashLine(message, length)`: a dimmed run of dashes, padded. */
  function GeneDashLine(message: string, length: int): Styled
  {
    Padding(Paint(Dim, Join(Holes(Max(2, length - |message| + 2)), "-")))
  }

  /** Since `new Array(k).join('-')` writes k - 1 dashes, the run has
      `max(1, length - |message| + 1)` of them, with one space on each side,
      and it is styled only dim. */
  lemma GeneDashLineLayout(message: string, length: int)
    ensures Text(GeneDashLine(message, length)) == " " + Repeat('-', DashCount(message, length)) + " "
    ensures forall sp :: sp in GeneDashLine(message, length) ==> sp.style == Plain || sp.style == Dim
  {
    var k := Max(2, length - |message| + 2);
    JoinHoles(k, '-');
    PaddingLayout(Paint(Dim, Join(Holes(k), "-")), 1, 1);
    assert Text(Paint(Dim, Join(Holes(k), "-"))) == Join(Holes(k), "-");
  }

  /** Every name no longer than `length` ends its dash run in the same
      column: name and dashes together always take `length + 1` characters. */
  lemma DashLineAligns(message: string, length: int)
    requires |message| <= length
    ensures |message| + DashCount(message, length) == length + 1
    ensures |message| + |Text(GeneDashLine(message, length))| == length + 3
  {
    GeneDashLineLayout(message, length);
  }

  /** `isRegistryNotFound(name)`: the name is not a catalog key. */
  function IsRegistryNotFound(keys: seq<string>, name: string): (r: bool)
    ensures r <==> forall i :: 0 <= i < |keys| ==> keys[i] != name
  {
    name !in keys
  }

  /** `isInternalRegistry(name)`: the name is a catalog key. */
  function IsInternalRegistry(keys: seq<string>, name: string): (r: bool)
    ensures r <==> exists i :: 0 <= i < |keys| && keys[i] == name
  {
    name in keys
  }

  /** The two predicates are exact complements. */
  lemma NotFoundIsNotInternal(keys: seq<string>, name: string)
    ensures IsRegistryNotFound(keys, name) <==> !IsInternalRegistry(keys, name)
  {
  }
}
