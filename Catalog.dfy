/** The mirror catalog of src/actions.js (the `REGISTRIES` object) and the
    commands that read or change it: `ls`, `current`, `add` and `delete`.
    The catalog is an ordered map from mirror name to its entry: the key
    order is kept as a sequence beside the map. The registry the package
    manager currently uses, and the answers typed at the prompts, are
    parameters. */
module Catalog {
  import opened Wrappers
  import opened Strings
  import Constants
  import Utils

  /** One catalog value: `{ home, registry }`. */
  datatype Entry = Entry(home: string, registry: string)

  /** Why an `add` prompt refuses an answer. */
  datatype AddError = NameTaken | NameBlank | UrlBlank

  /** What `current` reports: the name of the active mirror, or the raw URL
      when no mirror has it. */
  datatype CurrentReport = ByName(name: string) | ByUrl(url: string)

  predicate Distinct(xs: seq<string>)
  {
    forall i, j :: 0 <= i < j < |xs| ==> xs[i] != xs[j]
  }

  /** `xs.filter((x) => !ws.includes(x))`: keeps order, drops the listed names. */
  function FilterOut(xs: seq<string>, ws: seq<string>): (r: seq<string>)
    ensures forall k :: k in r <==> k in xs && k !in ws
    ensures |r| <= |xs|
  {
    if xs == [] then []
    else (if xs[0] in ws then [] else [xs[0]]) + FilterOut(xs[1..], ws)
  }

  /** Concatenation is associative. */
  lemma AppendAssoc(a: seq<string>, b: seq<string>, c: seq<string>)
    ensures a + (b + c) == (a + b) + c
  {
  }

  /** Filtering works piece by piece: the kept names of `a + b` are the kept
      names of `a` followed by those of `b`, so `filter` keeps the input order. */
  lemma {:induction false} FilterOutAppend(a: seq<string>, b: seq<string>, ws: seq<string>)
    ensures FilterOut(a + b, ws) == FilterOut(a, ws) + FilterOut(b, ws)
  {
    if a == [] {
      assert a + b == b;
    } else {
      var head := if a[0] in ws then [] else [a[0]];
      var rest, tail := FilterOut(a[1..], ws), FilterOut(b, ws);
      assert FilterOut(a + b, ws) == head + FilterOut(a[1..] + b, ws) by {
        assert (a + b)[0] == a[0];
        assert (a + b)[1..] == a[1..] + b;
      }
      FilterOutAppend(a[1..], b, ws);
      AppendAssoc(head, rest, tail);
    }
  }

  /** When no name is on the list, filtering keeps the whole list as it is. */
  lemma {:induction false} FilterOutKeepsAll(xs: seq<string>, ws: seq<string>)
    requires forall k :: k in xs ==> k !in ws
    ensures FilterOut(xs, ws) == xs
  {
    if xs != [] {
      assert xs[0] in xs;
      FilterOutKeepsAll(xs[1..], ws);
      assert [xs[0]] + xs[1..] == xs;
    }
  }

  /** Filtering a list without repeats gives a list without repeats. */
  lemma {:induction false} FilterOutDistinct(xs: seq<string>, ws: seq<string>)
    requires Distinct(xs)
    ensures Distinct(FilterOut(xs, ws))
  {
    if xs != [] {
      var tail := xs[1..];
      assert Distinct(tail) by {
        forall a, b | 0 <= a < b < |tail|
          ensures tail[a] != tail[b]
        {
          assert tail[a] == xs[a + 1] && tail[b] == xs[b + 1];
        }
      }
      FilterOutDistinct(tail, ws);
      var rest := FilterOut(tail, ws);
      if xs[0] !in ws {
        assert xs[0] !in tail;
        var r := [xs[0]] + rest;
        forall a, b | 0 <= a < b < |r|
          ensures r[a] != r[b]
        {
          assert r[b] == rest[b - 1];
          if a > 0 {
            assert r[a] == rest[a - 1];
          } else {
            assert rest[b - 1] in rest;
          }
        }
      }
    }
  }

  /** Filtering a name out of a list split around one occurrence of it
      filters the part before and the part after, and drops that occurrence. */
  lemma FilterOutAround(before: seq<string>, x: string, after: seq<string>)
    ensures FilterOut(before + [x] + after, [x]) == FilterOut(before, [x]) + FilterOut(after, [x])
  {
    assert FilterOut([x], [x]) == [] by {
      assert [x][1..] == [];
    }
    FilterOutAppend(before, [x], [x]);
    assert FilterOut(before, [x]) + [] == FilterOut(before, [x]);
    FilterOutAppend(before + [x], after, [x]);
  }

  /** When a name occurs exactly once, filtering it out removes just that
      occurrence. */
  lemma FilterOutOnce(before: seq<string>, x: string, after: seq<string>)
    requires x !in before && x !in after
    ensures FilterOut(before + [x] + after, [x]) == before + after
  {
    FilterOutAround(before, x, after);
    FilterOutKeepsAll(before, [x]);
    FilterOutKeepsAll(after, [x]);
  }

  /** In a list without repeats, the name at position `i` occurs neither
      before nor after it. */
  lemma DistinctApart(xs: seq<string>, i: nat)
    requires Distinct(xs) && i < |xs|
    ensures xs[i] !in xs[..i] && xs[i] !in xs[i + 1..]
  {
    var before, after := xs[..i], xs[i + 1..];
    forall j | 0 <= j < |before|
      ensures before[j] != xs[i]
    {
      assert before[j] == xs[j];
    }
    forall j | 0 <= j < |after|
      ensures after[j] != xs[i]
    {
      assert after[j] == xs[i + 1 + j];
    }
  }

  /** Removing the name at position `i` of a list without repeats keeps all
      the others in their order. */
  lemma FilterOutAt(xs: seq<string>, i: nat)
    requires Distinct(xs) && i < |xs|
    ensures FilterOut(xs, [xs[i]]) == xs[..i] + xs[i + 1..]
  {
    var before, x, after := xs[..i], xs[i], xs[i + 1..];
    DistinctApart(xs, i);
    assert FilterOut(xs, [x]) == before + after by {
      assert xs == before + [x] + after;
      FilterOutOnce(before, x, after);
    }
  }

  /** Appending a name that is not yet there keeps the names distinct and
      still exactly the keys of the map with that name added. */
  lemma AppendKeepsConsistent(keys: seq<string>, entries: map<string, Entry>, name: string, e: Entry)
    requires Distinct(keys) && (forall k :: k in entries <==> k in keys) && name !in keys
    ensures Distinct(keys + [name])
    ensures forall k :: k in entries[name := e] <==> k in keys + [name]
  {
    var grown := keys + [name];
    forall a, b | 0 <= a < b < |grown|
      ensures grown[a] != grown[b]
    {
      assert grown[a] == keys[a];
      if b == |keys| {
        assert keys[a] in keys;
      } else {
        assert grown[b] == keys[b];
      }
    }
  }

  /** Taking out the name at position `i` keeps the names distinct and still
      exactly the keys of the map with that name removed. */
  lemma RemoveKeepsConsistent(keys: seq<string>, entries: map<string, Entry>, i: nat)
    requires Distinct(keys) && (forall k :: k in entries <==> k in keys) && i < |keys|
    ensures var rest := keys[..i] + keys[i + 1..];
      Distinct(rest) && forall k :: k in entries - {keys[i]} <==> k in rest
  {
    var rest := keys[..i] + keys[i + 1..];
    assert forall j :: 0 <= j < |rest| ==> rest[j] == keys[if j < i then j else j + 1];
    forall k
      ensures k in entries - {keys[i]} <==> k in rest
    {
      if k in rest {
        var j :| 0 <= j < |rest| && rest[j] == k;
      }
      if k in keys && k != keys[i] {
        var j :| 0 <= j < |keys| && keys[j] == k;
        assert rest[if j < i then j else j - 1] == k;
      }
    }
  }

  /** What `delete REGISTRIES[name]` does to the key order and the map: the
      name at position `i` leaves both, and the catalog stays consistent. */
  lemma RemoveAt(keys: seq<string>, entries: map<string, Entry>, i: nat)
    requires Distinct(keys) && (forall k :: k in entries <==> k in keys) && i < |keys|
    ensures var rest := FilterOut(keys, [keys[i]]);
      && rest == keys[..i] + keys[i + 1..]
      && Distinct(rest) && forall k :: k in entries - {keys[i]} <==> k in rest
  {
    FilterOutAt(keys, i);
    RemoveKeepsConsistent(keys, entries, i);
  }

  /** The longest name: `Math.max(...xs.map((v) => v.length))` for a
      non-empty list (0 for an empty one, where the tool prints nothing). */
  function MaxLength(xs: seq<string>): nat
  {
    LongestBefore(xs, |xs|)
  }

  /** The length of the longest of the first `n` names. */
  function LongestBefore(xs: seq<string>, n: nat): nat
    requires n <= |xs|
  {
    if n == 0 then 0
    else
      var rest := LongestBefore(xs, n - 1);
      if |xs[n - 1]| >= rest then |xs[n - 1]| else rest
  }

  lemma {:induction false} LongestBeforeBounds(xs: seq<string>, n: nat)
    requires n <= |xs|
    ensures forall i :: 0 <= i < n ==> |xs[i]| <= LongestBefore(xs, n)
    ensures n > 0 ==> exists i :: 0 <= i < n && |xs[i]| == LongestBefore(xs, n)
  {
    if n > 0 {
      LongestBeforeBounds(xs, n - 1);
    }
  }

  /** `MaxLength` bounds every name and is the length of one of them. */
  lemma MaxLengthBounds(xs: seq<string>)
    ensures forall i :: 0 <= i < |xs| ==> |xs[i]| <= MaxLength(xs)
    ensures xs != [] ==> exists i :: 0 <= i < |xs| && |xs[i]| == MaxLength(xs)
  {
    LongestBeforeBounds(xs, |xs|);
  }

  /** The name prompt of `add`: a name already in the catalog (reserved or
      user-added alike) is refused first, then a blank one. */
  function ValidateName(keys: seq<string>, answer: string): (r: Option<AddError>)
    ensures r == Some(NameTaken) <==> answer in keys
    ensures r == Some(NameBlank) <==> answer !in keys && IsBlank(answer)
    ensures r == None <==> answer !in keys && Trim(answer) != []
  {
    TrimEmptyIffBlank(answer);
    if answer in keys then Some(NameTaken)
    else if Trim(answer) == [] then Some(NameBlank)
    else None
  }

  /** The URL prompt of `add`: only a blank answer is refused. */
  function ValidateUrl(answer: string): (r: Option<AddError>)
    ensures r == None <==> !IsBlank(answer)
    ensures r == None || r == Some(UrlBlank)
  {
    TrimEmptyIffBlank(answer);
    if Trim(answer) == [] then Some(UrlBlank) else None
  }

  /** `Arr.length = width` on the characters of `s`, then every hole written
      as `-`: cut to `width`, or filled up to it with dashes. */
  function PadTo(s: string, width: nat): (r: string)
    ensures |r| == width
  {
    if |s| >= width then s[..width] else s + Repeat('-', width - |s|)
  }

  /** Position by position, the padded text is the original character where
      there was one and a dash where the array had a hole. */
  lemma PadToAt(s: string, width: nat)
    ensures forall i :: 0 <= i < width ==> PadTo(s, width)[i] == if i < |s| then s[i] else '-'
  {
  }

  /** The two-character mark `ls` puts before the active mirror. */
  function Marker(registry: string, cur: string): string
  {
    if registry == Trim(cur) then "* " else "  "
  }

  /** One line of `ls`. */
  function LsLine(name: string, registry: string, width: nat, cur: string): string
  {
    PadTo(Marker(registry, cur) + name, width) + "  " + registry
  }

  /** With the width `ls` uses (at least three more than any name), a line is
      the two-character mark, the name, at least one dash up to the common
      width, two spaces and the URL; the mark is `* ` exactly for the active
      mirror. */
  lemma LsLineLayout(name: string, registry: string, width: nat, cur: string)
    requires |name| + 3 <= width
    ensures width - 2 - |name| >= 1
    ensures LsLine(name, registry, width, cur)
         == Marker(registry, cur) + name + Repeat('-', width - 2 - |name|) + "  " + registry
    ensures |Marker(registry, cur)| == 2
    ensures Marker(registry, cur) == "* " <==> registry == Trim(cur)
  {
    var m := Marker(registry, cur);
    assert PadTo(m + name, width) == m + name + Repeat('-', width - 2 - |name|);
  }

  /** The `forEach` of `ls`: one line pushed per name, in the order given. */
  method ListLines(keys: seq<string>, entries: map<string, Entry>, width: nat, cur: string)
    returns (lines: seq<string>)
    requires forall i :: 0 <= i < |keys| ==> keys[i] in entries
    ensures |lines| == |keys|
    ensures forall i :: 0 <= i < |keys| ==>
      lines[i] == LsLine(keys[i], entries[keys[i]].registry, width, cur)
  {
    lines := [];
    var i := 0;
    while i < |keys|
      invariant 0 <= i <= |keys|
      invariant |lines| == i
      invariant forall j :: 0 <= j < i ==>
        lines[j] == LsLine(keys[j], entries[keys[j]].registry, width, cur)
    {
      var k := keys[i];
      var registry := entries[k].registry;
      var prefix := PadTo(Marker(registry, cur) + k, width);
      lines := lines + [prefix + "  " + registry];
      i := i + 1;
    }
  }

  /** `ls` over a whole catalog: with the width it computes (the longest name
      plus three), every line's prefix is exactly that wide, holds the mark and
      the name and ends in at least one dash, and the URL follows after two
      spaces. */
  lemma LsLinesAligned(keys: seq<string>, entries: map<string, Entry>, cur: string)
    requires forall i :: 0 <= i < |keys| ==> keys[i] in entries
    ensures forall i :: 0 <= i < |keys| ==>
      var width := MaxLength(keys) + 3;
      && width - 2 - |keys[i]| >= 1
      && |Marker(entries[keys[i]].registry, cur) + keys[i] + Repeat('-', width - 2 - |keys[i]|)| == width
      && LsLine(keys[i], entries[keys[i]].registry, width, cur)
         == Marker(entries[keys[i]].registry, cur) + keys[i] + Repeat('-', width - 2 - |keys[i]|)
            + "  " + entries[keys[i]].registry
  {
    MaxLengthBounds(keys);
    forall i | 0 <= i < |keys|
      ensures var width := MaxLength(keys) + 3;
        && width - 2 - |keys[i]| >= 1
        && |Marker(entries[keys[i]].registry, cur) + keys[i] + Repeat('-', width - 2 - |keys[i]|)| == width
        && LsLine(keys[i], entries[keys[i]].registry, width, cur)
           == Marker(entries[keys[i]].registry, cur) + keys[i] + Repeat('-', width - 2 - |keys[i]|)
              + "  " + entries[keys[i]].registry
    {
      LsLineLayout(keys[i], entries[keys[i]].registry, MaxLength(keys) + 3, cur);
    }
  }

  /** How `delete` starts, before its prompt: the "no custom mirror" message,
      the list of names offered, or a `TypeError` thrown by the guard. */
  datatype DeletePrompt = NothingToDelete | Offer(choices: seq<string>) | TypeError

  /** The guard as written asks `includes` of the catalog object, which has no
      such method: `every` never calls it on an empty catalog, and throws on
      the first name of any other. */
  function DeleteGuardAsWritten(keys: seq<string>): (r: DeletePrompt)
    ensures r == NothingToDelete <==> keys == []
    ensures r != NothingToDelete ==> r == TypeError
  {
    if keys == [] then NothingToDelete else TypeError
  }

  /** The guard its message describes: nothing to delete exactly when every
      name is a built-in one; otherwise the custom names are offered, in
      catalog order. */
  function DeleteGuard(keys: seq<string>): (r: DeletePrompt)
    ensures r == NothingToDelete <==> forall k :: k in keys ==> k in Constants.Whitelist
    ensures r.Offer? ==> r.choices != [] && forall k :: k in r.choices <==> k in keys && k !in Constants.Whitelist
    ensures r != TypeError
  {
    var custom := FilterOut(keys, Constants.Whitelist);
    if custom == [] then NothingToDelete
    else assert custom[0] in custom; Offer(custom)
  }

  /** A catalog with one custom mirror: the guard as written throws, the
      intended guard offers that mirror. */
  lemma DeleteGuardThrows()
    ensures DeleteGuardAsWritten(["npm", "mine"]) == TypeError
    ensures DeleteGuard(["npm", "mine"]) == Offer(["mine"])
  {
    assert FilterOut(["npm", "mine"], Constants.Whitelist) == ["mine"] by {
      assert ["npm", "mine"][1..] == ["mine"];
      assert ["mine"][1..] == [];
    }
  }

  /** `REGISTRIES`: mirror names in insertion order and their entries. */
  class Registries {
    var keys: seq<string>
    var entries: map<string, Entry>

    /** The names are distinct and are exactly the keys of the map. */
    ghost predicate Valid()
      reads this
    {
      Distinct(keys) && forall k :: k in entries <==> k in keys
    }

    /** The catalog as loaded from registries.json. */
    constructor (keys0: seq<string>, entries0: map<string, Entry>)
      requires Distinct(keys0) && forall k :: k in entries0 <==> k in keys0
      ensures Valid() && keys == keys0 && entries == entries0
    {
      keys := keys0;
      entries := entries0;
    }

    /** The test `current` applies to each name: its URL is the trimmed active
        one, and the name itself is truthy (not empty), since the search
        callback returns the name. */
    predicate IsActive(name: string, url: string)
      reads this
      requires name in entries
    {
      name != "" && entries[name].registry == url
    }

    /** `find` from position `from` on: the first active name's position. */
    function FindActive(url: string, from: nat): (r: Option<nat>)
      reads this
      requires Valid() && from <= |keys|
      ensures r.Some? ==> from <= r.value < |keys| && IsActive(keys[r.value], url)
      ensures r.Some? ==> forall j :: from <= j < r.value ==> !IsActive(keys[j], url)
      ensures r.None? ==> forall j :: from <= j < |keys| ==> !IsActive(keys[j], url)
      decreases |keys| - from
    {
      if from == |keys| then None
      else if IsActive(keys[from], url) then Some(from)
      else FindActive(url, from + 1)
    }

    /** `current`: the first name in catalog order whose URL is the trimmed
        active registry, or, when there is none, the active registry as the
        package manager printed it. */
    function Current(cur: string): (r: CurrentReport)
      reads this
      requires Valid()
      ensures r.ByUrl? <==> forall i :: 0 <= i < |keys| ==> !IsActive(keys[i], Trim(cur))
      ensures r.ByUrl? ==> r.url == cur
      ensures r.ByName? ==> exists i :: 0 <= i < |keys| && keys[i] == r.name
                              && IsActive(keys[i], Trim(cur))
                              && forall j :: 0 <= j < i ==> !IsActive(keys[j], Trim(cur))
    {
      match FindActive(Trim(cur), 0)
      case Some(i) => ByName(keys[i])
      case None => ByUrl(cur)
    }

    /** `ls`: one line per mirror, in catalog order, padded to the longest
        name plus three. */
    method List(cur: string) returns (lines: seq<string>)
      requires Valid()
      ensures |lines| == |keys|
      ensures forall i :: 0 <= i < |keys| ==>
        lines[i] == LsLine(keys[i], entries[keys[i]].registry, MaxLength(keys) + 3, cur)
    {
      var width := MaxLength(keys) + 3;
      lines := ListLines(keys, entries, width, cur);
    }

    /** `add`: both answers are checked as the prompts check them; an accepted
        pair appends the raw name as a new key whose entry holds the trimmed
        name and the trimmed URL, and a refused one changes nothing. */
    method Add(name: string, url: string) returns (r: Option<AddError>)
      requires Valid()
      modifies this
      ensures Valid()
      ensures r == (if ValidateName(old(keys), name).Some? then ValidateName(old(keys), name)
                    else ValidateUrl(url))
      ensures r.None? ==> && keys == old(keys) + [name]
                          && entries == old(entries)[name := Entry(Trim(name), Trim(url))]
                          && name !in old(entries)
      ensures r.None? ==> forall k :: k in old(entries) ==> k in entries && entries[k] == old(entries)[k]
      ensures r.Some? ==> keys == old(keys) && entries == old(entries)
    {
      r := ValidateName(keys, name);
      if r.None? {
        r := ValidateUrl(url);
      }
      if r.None? {
        var e := Entry(Trim(name), Trim(url));
        AppendKeepsConsistent(keys, entries, name, e);
        entries := entries[name := e];
        keys := keys + [name];
      }
    }

    /** The names `delete` offers: every name not on the built-in list, in
        catalog order. */
    function Candidates(): (r: seq<string>)
      reads this
      ensures forall k :: k in r <==> k in keys && k !in Constants.Whitelist
    {
      FilterOut(keys, Constants.Whitelist)
    }

    /** `delete` with the chosen name: refused, changing nothing, when that
        mirror's URL is the active registry (both trimmed); otherwise exactly
        that name is removed and the others keep their order. */
    method Delete(sel: string, cur: string) returns (removed: bool)
      requires Valid() && sel in Candidates()
      modifies this
      ensures Valid()
      ensures removed <==> Trim(cur) != Trim(old(entries)[sel].registry)
      ensures removed ==> && sel !in Constants.Whitelist
                          && entries == old(entries) - {sel}
                          && exists i :: 0 <= i < |old(keys)| && old(keys)[i] == sel
                                         && keys == old(keys)[..i] + old(keys)[i + 1..]
      ensures !removed ==> keys == old(keys) && entries == old(entries)
    {
      var selOrigin := entries[sel];
      if Trim(cur) == Trim(selOrigin.registry) {
        return false;
      }
      Remove(sel);
      removed := true;
    }

    /** `delete REGISTRIES[name]`: the name leaves the map and the key order,
        and every other name keeps its place. */
    method Remove(name: string)
      requires Valid() && name in entries
      modifies this
      ensures Valid()
      ensures entries == old(entries) - {name}
      ensures exists i :: 0 <= i < |old(keys)| && old(keys)[i] == name
                          && keys == old(keys)[..i] + old(keys)[i + 1..]
    {
      assert name in keys;
      var i :| 0 <= i < |keys| && keys[i] == name;
      RemoveAt(keys, entries, i);
      var rest := FilterOut(keys, [keys[i]]);
      ghost var before := keys;
      keys, entries := rest, entries - {name};
      assert keys == before[..i] + before[i + 1..];
    }
  }

  /** The two membership helpers of src/utils.js agree with the catalog's map. */
  lemma MembershipMatchesEntries(c: Registries, name: string)
    requires c.Valid()
    ensures Utils.IsRegistryNotFound(c.keys, name) <==> name !in c.entries
    ensures Utils.IsInternalRegistry(c.keys, name) <==> name in c.entries
  {
  }
}
