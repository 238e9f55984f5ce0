/** Walking a dotted path through an object's JSON and reading the texts at its end. */
module PathWalk {
  import opened Text
  import opened Sorting

  /** Numbers and booleans carry the text they print as. */
  datatype Json =
    | Null
    | Str(text: string)
    | Other(text: string)
    | List(items: seq<Json>)
    | Object(fields: map<string, Json>)

  function Name(segment: string): string {
    TrimSuffix(segment, "[]")
  }

  predicate Each(segment: string) {
    HasSuffix(segment, "[]")
  }

  /** A map at the end of a path reads as "key=value" per scalar entry, and as the bare key otherwise. */
  function EntryText(key: string, value: Json): string {
    match value
    case Str(text) => key + "=" + text
    case Other(text) => key + "=" + text
    case _ => key
  }

  function EntryTexts(keys: seq<string>, fields: map<string, Json>): seq<string>
    requires forall k | k in keys :: k in fields
  {
    if keys == [] then [] else [EntryText(keys[0], fields[keys[0]])] + EntryTexts(keys[1..], fields)
  }

  function LeavesAt(node: Json, segments: seq<string>): seq<string>
    decreases node, 1, 0
  {
    if segments == [] then
      match node
      case Null => []
      case Str(text) => [text]
      case Other(text) => [text]
      case Object(fields) => EntryTexts(Listing(fields.Keys), fields)
      case List(_) => LeavesFrom(node, 0, [])
    else if !node.Object? || Name(segments[0]) !in node.fields then []
    else
      var child := node.fields[Name(segments[0])];
      if !Each(segments[0]) then LeavesAt(child, segments[1..])
      else if !child.List? then []
      else LeavesFrom(child, 0, segments[1..])
  }

  /** The leaves of a list's elements, from the given one on. */
  function LeavesFrom(list: Json, from: nat, segments: seq<string>): seq<string>
    requires list.List? && from <= |list.items|
    decreases list, 0, |list.items| - from
  {
    if from == |list.items| then []
    else LeavesAt(list.items[from], segments) + LeavesFrom(list, from + 1, segments)
  }

  // ---------- the relation it computes ----------

  /** One step down a JSON tree. */
  datatype Step = Field(name: string) | Element(index: nat)

  function Follow(node: Json, steps: seq<Step>): Option<Json>
    decreases |steps|
  {
    if steps == [] then Some(node)
    else match steps[0]
      case Field(name) =>
        if node.Object? && name in node.fields then Follow(node.fields[name], steps[1..]) else None
      case Element(index) =>
        if node.List? && index < |node.items| then Follow(node.items[index], steps[1..]) else None
  }

  /** The steps a path stands for: a field for each segment, an element after each "[]", and any
      number of elements past the end. */
  predicate Spells(steps: seq<Step>, segments: seq<string>) {
    if segments == [] then forall s | s in steps :: s.Element?
    else
      && steps != [] && steps[0] == Field(Name(segments[0]))
      && if Each(segments[0]) then |steps| >= 2 && steps[1].Element? && Spells(steps[2..], segments[1..])
         else Spells(steps[1..], segments[1..])
  }

  predicate ReadsAs(leaf: Json, text: string) {
    match leaf
    case Null => false
    case Str(t) => text == t
    case Other(t) => text == t
    case List(_) => false
    case Object(fields) => exists k | k in fields :: text == EntryText(k, fields[k])
  }

  /** Following these steps, which the path stands for, ends at a leaf that reads as this text. */
  ghost predicate Shows(node: Json, segments: seq<string>, text: string, steps: seq<Step>) {
    Spells(steps, segments) && Follow(node, steps).Some? && ReadsAs(Follow(node, steps).value, text)
  }

  lemma {:induction false} EntryTextsAreEntries(keys: seq<string>, fields: map<string, Json>, text: string)
    requires forall k | k in keys :: k in fields
    ensures text in EntryTexts(keys, fields) <==> exists k | k in keys :: text == EntryText(k, fields[k])
  {
    if keys != [] {
      EntryTextsAreEntries(keys[1..], fields, text);
      assert forall k :: k in keys <==> k == keys[0] || k in keys[1..];
    }
  }

  lemma {:induction false} LeavesFromAreLeaves(list: Json, from: nat, segments: seq<string>, text: string)
    requires list.List? && from <= |list.items|
    ensures text in LeavesFrom(list, from, segments) <==>
            exists i | from <= i < |list.items| :: text in LeavesAt(list.items[i], segments)
    decreases |list.items| - from
  {
    hide LeavesAt;
    if from < |list.items| {
      LeavesFromAreLeaves(list, from + 1, segments, text);
    }
  }

  /** Every text returned is one that some spelled-out walk shows. */
  lemma {:induction false} LeavesAreSound(node: Json, segments: seq<string>, text: string) returns (steps: seq<Step>)
    requires text in LeavesAt(node, segments)
    ensures Shows(node, segments, text, steps)
    decreases node
  {
    if segments == [] {
      steps := [];
      if node.Object? {
        EntryTextsAreEntries(Listing(node.fields.Keys), node.fields, text);
      } else if node.List? {
        LeavesFromAreLeaves(node, 0, [], text);
        var i :| 0 <= i < |node.items| && text in LeavesAt(node.items[i], []);
        var rest := LeavesAreSound(node.items[i], [], text);
        steps := [Element(i)] + rest;
        assert steps[1..] == rest;
      }
    } else {
      var child := node.fields[Name(segments[0])];
      if Each(segments[0]) {
        LeavesFromAreLeaves(child, 0, segments[1..], text);
        var i :| 0 <= i < |child.items| && text in LeavesAt(child.items[i], segments[1..]);
        var rest := LeavesAreSound(child.items[i], segments[1..], text);
        steps := [Field(Name(segments[0])), Element(i)] + rest;
        assert steps[2..] == rest && steps[1..] == [Element(i)] + rest && steps[1..][1..] == rest;
      } else {
        var rest := LeavesAreSound(child, segments[1..], text);
        steps := [Field(Name(segments[0]))] + rest;
        assert steps[1..] == rest;
      }
    }
  }

  /** Every text some walk shows is returned. */
  lemma {:induction false} LeavesAreComplete(node: Json, segments: seq<string>, text: string, steps: seq<Step>)
    requires Shows(node, segments, text, steps)
    ensures text in LeavesAt(node, segments)
    decreases node
  {
    if segments == [] {
      if steps == [] {
        if node.Object? {
          EntryTextsAreEntries(Listing(node.fields.Keys), node.fields, text);
        }
      } else {
        assert steps[0].Element?;
        var i := steps[0].index;
        LeavesAreComplete(node.items[i], [], text, steps[1..]);
        LeavesFromAreLeaves(node, 0, [], text);
      }
    } else {
      var child := node.fields[Name(segments[0])];
      assert Follow(node, steps) == Follow(child, steps[1..]);
      if Each(segments[0]) {
        var i := steps[1].index;
        assert steps[1..][0] == Element(i) && steps[1..][1..] == steps[2..];
        LeavesAreComplete(child.items[i], segments[1..], text, steps[2..]);
        LeavesFromAreLeaves(child, 0, segments[1..], text);
      } else {
        LeavesAreComplete(child, segments[1..], text, steps[1..]);
      }
    }
  }

  /** The walk returns exactly the texts the path shows. */
  lemma LeavesAreExact(node: Json, segments: seq<string>, text: string)
    ensures text in LeavesAt(node, segments) <==> exists steps :: Shows(node, segments, text, steps)
  {
    if text in LeavesAt(node, segments) {
      var steps := LeavesAreSound(node, segments, text);
    }
    if steps :| Shows(node, segments, text, steps) {
      LeavesAreComplete(node, segments, text, steps);
    }
  }

  /** A tree in which the path shows one text and nothing else. */
  function Along(segments: seq<string>, text: string): Json {
    if segments == [] then Str(text)
    else
      var child := Along(segments[1..], text);
      Object(map[Name(segments[0]) := if Each(segments[0]) then List([child]) else child])
  }

  lemma {:induction false} AlongShows(segments: seq<string>, text: string)
    ensures LeavesAt(Along(segments, text), segments) == [text]
  {
    if segments != [] {
      AlongShows(segments[1..], text);
      var child := Along(segments[1..], text);
      if Each(segments[0]) {
        var list := List([child]);
        assert LeavesFrom(list, 1, segments[1..]) == [];
      }
    }
  }

  /** What stands at the end of a path reads as its own text; a map as "key=value" for each entry with a text and
      as the bare key for any other; a list as its elements, nested or not; and null as nothing. */
  lemma LeafTexts(node: Json, text: string)
    ensures node == Null ==> text !in LeavesAt(node, [])
    ensures node.Str? || node.Other? ==> (text in LeavesAt(node, []) <==> text == node.text)
    ensures node.List? ==>
              (text in LeavesAt(node, []) <==> exists i | 0 <= i < |node.items| :: text in LeavesAt(node.items[i], []))
    ensures node.Object? ==>
              (text in LeavesAt(node, []) <==>
                 exists k | k in node.fields ::
                   text == if node.fields[k].Str? || node.fields[k].Other? then k + "=" + node.fields[k].text else k)
  {
    match node
    case List(items) => LeavesFromAreLeaves(node, 0, [], text);
    case Object(fields) => EntryTextsAreEntries(Listing(fields.Keys), fields, text);
    case _ =>
  }

  /** A segment ending in "[]" goes into each element of the list under its name, any other into what is there. */
  lemma SegmentGoes(fields: map<string, Json>, name: string, rest: seq<string>, text: string)
    requires !HasSuffix(name, "[]")
    ensures text in LeavesAt(Object(fields), [name] + rest) <==>
            name in fields && text in LeavesAt(fields[name], rest)
    ensures text in LeavesAt(Object(fields), [name + "[]"] + rest) <==>
            name in fields && fields[name].List? &&
            exists i | 0 <= i < |fields[name].items| :: text in LeavesAt(fields[name].items[i], rest)
  {
    var each := name + "[]";
    assert each[|name|..] == "[]" && each[..|name|] == name;
    assert ([name] + rest)[1..] == rest && ([each] + rest)[1..] == rest;
    if name in fields && fields[name].List? {
      LeavesFromAreLeaves(fields[name], 0, rest, text);
    }
  }
}
