/** Object references of a device's data model: the parser and the printer of
    references such as "LD/LN.Do.Da", and the update of one node from the device. */
module ObjectRef {
  import opened Prelude

  // Python dictionaries and strings; a discovered model holds nothing else.
  datatype Value = Text(text: string) | Dict(entries: map<string, Value>)

  const NOTHING: Value := Dict(map[])

  // The `in` operator between strings.
  predicate Occurs(x: string, s: string) {
    x <= s || (s != [] && Occurs(x, s[1..]))
  }

  // ---- splitting and joining ----

  function Split(s: string, c: char): (parts: seq<string>)
    ensures parts != []
  {
    if s == [] then [[]]
    else
      var parts := Split(s[1..], c);
      if s[0] == c then [[]] + parts else [[s[0]] + parts[0]] + parts[1..]
  }

  function Join(parts: seq<string>, c: char): string {
    if parts == [] then []
    else if |parts| == 1 then parts[0]
    else parts[0] + [c] + Join(parts[1..], c)
  }

  lemma {:induction false} JoinOfSplit(s: string, c: char)
    ensures Join(Split(s, c), c) == s
  {
    if s != [] {
      JoinOfSplit(s[1..], c);
      var parts := Split(s[1..], c);
      assert s == [s[0]] + s[1..];
      assert Split(s, c)[1..] == if s[0] == c then parts else parts[1..];
    }
  }

  lemma {:induction false} SplitOfJoin(parts: seq<string>, c: char)
    requires parts != [] && forall i :: 0 <= i < |parts| ==> c !in parts[i]
    ensures Split(Join(parts, c), c) == parts
    decreases |parts|, |parts[0]|
  {
    var s := Join(parts, c);
    if parts[0] != [] {
      var shorter := [parts[0][1..]] + parts[1..];
      assert shorter[1..] == parts[1..];
      assert parts[0] == [parts[0][0]] + shorter[0];
      assert s[1..] == Join(shorter, c);
      assert s[0] == parts[0][0] && parts[0][0] in parts[0];
      SplitOfJoin(shorter, c);
      assert Split(s, c) == [parts[0]] + parts[1..];
    } else if |parts| > 1 {
      assert s[1..] == Join(parts[1..], c);
      SplitOfJoin(parts[1..], c);
    }
  }

  lemma {:induction false} SplitLacks(s: string, c: char, d: char)
    requires d == c || d !in s
    ensures forall i :: 0 <= i < |Split(s, c)| ==> d !in Split(s, c)[i]
  {
    if s != [] {
      SplitLacks(s[1..], c, d);
    }
  }

  lemma {:induction false} JoinSnoc(parts: seq<string>, c: char, last: string)
    requires parts != []
    ensures Join(parts + [last], c) == Join(parts, c) + [c] + last
  {
    if |parts| > 1 {
      assert (parts + [last])[1..] == parts[1..] + [last];
      JoinSnoc(parts[1..], c, last);
    }
  }

  // ---- references and the paths they name ----

  // The names in a reference, unless it has more than one '/'.
  function RefPath(ref: string): Option<seq<string>> {
    var parts := Split(ref, '/');
    if ref == "" then Some([])
    else if |parts| == 1 then Some([ref])
    else if |parts| > 2 then None
    else Some([parts[0]] + Split(parts[1], '.'))
  }

  function PrintRef(path: seq<string>): string {
    if path == [] then ""
    else if |path| == 1 then path[0]
    else path[0] + "/" + Join(path[1..], '.')
  }

  // The paths that some reference can name.
  predicate Nameable(path: seq<string>) {
    && path != [""]
    && (forall i :: 0 <= i < |path| ==> '/' !in path[i])
    && (forall i :: 1 <= i < |path| ==> '.' !in path[i])
  }

  lemma SplitSingle(s: string, c: char)
    ensures |Split(s, c)| == 1 <==> c !in s
    ensures c !in s ==> Split(s, c) == [s]
  {
    if c !in s {
      SplitOfJoin([s], c);
    } else {
      SplitLacks(s, c, c);
      JoinOfSplit(s, c);
    }
  }

  lemma RefPathIsNameable(ref: string)
    requires RefPath(ref).Some?
    ensures Nameable(RefPath(ref).value) && PrintRef(RefPath(ref).value) == ref
  {
    var parts := Split(ref, '/');
    SplitSingle(ref, '/');
    JoinOfSplit(ref, '/');
    SplitLacks(ref, '/', '/');
    if |parts| == 2 {
      var names := Split(parts[1], '.');
      JoinOfSplit(parts[1], '.');
      SplitLacks(parts[1], '.', '.');
      SplitLacks(parts[1], '.', '/');
      assert ([parts[0]] + names)[1..] == names;
      assert Join(parts, '/') == parts[0] + "/" + Join(parts[1..], '/');
    }
  }

  lemma {:induction false} JoinLacks(parts: seq<string>, c: char, d: char)
    requires d != c && forall i :: 0 <= i < |parts| ==> d !in parts[i]
    ensures d !in Join(parts, c)
  {
    if |parts| > 1 {
      JoinLacks(parts[1..], c, d);
    }
  }

  lemma NameableIsRefPath(path: seq<string>)
    requires Nameable(path)
    ensures RefPath(PrintRef(path)) == Some(path)
  {
    var ref := PrintRef(path);
    SplitSingle(ref, '/');
    if |path| > 1 {
      var rest := Join(path[1..], '.');
      JoinLacks(path[1..], '.', '/');
      assert [path[0], rest][1..] == [rest];
      assert Join([path[0], rest], '/') == ref;
      SplitOfJoin([path[0], rest], '/');
      SplitOfJoin(path[1..], '.');
      assert path == [path[0]] + path[1..];
    } else if |path| == 1 {
      assert path == [path[0]];
    }
  }

  // ---- descending the model ----

  datatype Walked = At(node: Value) | Missing | Raised

  // A name is looked up in a string as a substring, and then indexing fails.
  function Walk(v: Value, path: seq<string>): Walked {
    if path == [] then At(v)
    else match v
      case Dict(entries) =>
        if path[0] in entries then Walk(entries[path[0]], path[1..]) else Missing
      case Text(text) =>
        if Occurs(path[0], text) then Raised else Missing
  }

  lemma {:induction false} WalkAppend(v: Value, a: seq<string>, b: seq<string>)
    ensures Walk(v, a + b) == if Walk(v, a).At? then Walk(Walk(v, a).node, b) else Walk(v, a)
  {
    if a == [] {
      assert a + b == b;
    } else {
      assert (a + b)[1..] == a[1..] + b;
      if v.Dict? && a[0] in v.entries {
        WalkAppend(v.entries[a[0]], a[1..], b);
      }
    }
  }

  // ---- parsing ----

  datatype Parsed = Parsed(node: Value, path: seq<string>) | TypeError

  function Parse(tree: map<string, Value>, ref: string): Parsed {
    match RefPath(ref)
    case None => Parsed(NOTHING, [])
    case Some(path) =>
      match Walk(Dict(tree), path)
      case At(node) => Parsed(node, path)
      case Missing => Parsed(NOTHING, [])
      case Raised => TypeError
  }

  method ParseRef(tree: map<string, Value>, ref: string) returns (r: Parsed)
    ensures r == Parse(tree, ref)
  {
    var path := [];
    if ref == "" {
      return Parsed(Dict(tree), path);
    }
    var parts := Split(ref, '/');
    if |parts| == 1 {
      path := path + [ref];
      assert path == [ref] && [ref][1..] == [];
      if ref in tree {
        assert Walk(Dict(tree), [ref]) == Walk(tree[ref], []);
        return Parsed(tree[ref], path);
      }
      return Parsed(NOTHING, []);
    }
    if |parts| > 2 {
      return Parsed(NOTHING, []);
    }
    var device := parts[0];
    path := path + [device];
    var names := Split(parts[1], '.');
    assert ([device] + names)[1..] == names;
    if device !in tree {
      return Parsed(NOTHING, []);
    }
    var mm := tree[device];
    var i := 0;
    assert names[0..] == names;
    while i < |names|
      invariant 0 <= i <= |names| && path == [device] + names[..i]
      invariant Walk(mm, names[i..]) == Walk(Dict(tree), [device] + names)
    {
      path := path + [names[i]];
      assert names[i..][1..] == names[i + 1..];
      match mm {
        case Dict(entries) =>
          if names[i] !in entries {
            return Parsed(NOTHING, []);
          }
          mm := entries[names[i]];
        case Text(text) =>
          return if Occurs(names[i], text) then TypeError else Parsed(NOTHING, []);
      }
      i := i + 1;
    }
    assert names[..i] == names;
    r := Parsed(mm, path);
  }

  // ---- printing ----

  datatype Printed = Printed(ref: string, node: Value) | IndexError

  lemma PrintRefSnoc(path: seq<string>, name: string)
    ensures PrintRef(path + [name])
         == PrintRef(path) + (if |path| == 0 then "" else if |path| == 1 then "/" else ".") + name
  {
    if |path| > 1 {
      assert (path + [name])[1..] == path[1..] + [name];
      JoinSnoc(path[1..], '.', name);
    }
  }

  ghost predicate StopsAt(tree: map<string, Value>, path: seq<string>, k: int) {
    0 <= k < |path| && Walk(Dict(tree), path[..k]).At? && Walk(Dict(tree), path[..k + 1]).Missing?
  }

  // A path that leaves the model is printed as far as it stays inside.
  ghost predicate Prints(tree: map<string, Value>, path: seq<string>, r: Printed) {
    match Walk(Dict(tree), path)
    case At(node) => r == Printed(PrintRef(path), node)
    case Raised => r == IndexError
    case Missing =>
      exists k :: StopsAt(tree, path, k) && r == Printed(PrintRef(path[..k]), Walk(Dict(tree), path[..k]).node)
  }

  lemma StopsOnce(tree: map<string, Value>, path: seq<string>, k: int, k': int)
    requires StopsAt(tree, path, k) && StopsAt(tree, path, k')
    ensures k >= k'
  {
    if k < k' {
      var rest := path[k + 1..k'];
      assert path[..k'] == path[..k + 1] + rest;
      WalkAppend(Dict(tree), path[..k + 1], rest);
    }
  }

  lemma PrintsOnce(tree: map<string, Value>, path: seq<string>, r: Printed, r': Printed)
    requires Prints(tree, path, r) && Prints(tree, path, r')
    ensures r == r'
  {
    if Walk(Dict(tree), path).Missing? {
      var k :| StopsAt(tree, path, k) && r == Printed(PrintRef(path[..k]), Walk(Dict(tree), path[..k]).node);
      var k' :| StopsAt(tree, path, k') && r' == Printed(PrintRef(path[..k']), Walk(Dict(tree), path[..k']).node);
      StopsOnce(tree, path, k, k');
      StopsOnce(tree, path, k', k);
    }
  }

  method GetRef(tree: map<string, Value>, path: seq<string>) returns (r: Printed)
    ensures Prints(tree, path, r)
  {
    var ref := "";
    var mm := Dict(tree);
    var i := 0;
    while i < |path|
      invariant 0 <= i <= |path| && ref == PrintRef(path[..i])
      invariant Walk(Dict(tree), path[..i]) == At(mm)
    {
      ghost var rest := path[i + 1..];
      assert path[..i + 1] == path[..i] + [path[i]];
      assert path == path[..i + 1] + rest;
      WalkAppend(Dict(tree), path[..i], [path[i]]);
      WalkAppend(Dict(tree), path[..i + 1], rest);
      PrintRefSnoc(path[..i], path[i]);
      match mm {
        case Dict(entries) =>
          if path[i] !in entries {
            assert StopsAt(tree, path, i);
            return Printed(ref, mm);
          }
          if i == 1 {
            ref := ref + "/";
          } else if i > 1 {
            ref := ref + ".";
          }
          ref := ref + path[i];
          mm := entries[path[i]];
        case Text(text) =>
          if Occurs(path[i], text) {
            return IndexError;
          }
          assert StopsAt(tree, path, i);
          return Printed(ref, mm);
      }
      i := i + 1;
    }
    assert path[..i] == path;
    r := Printed(ref, mm);
  }

  // ---- the two undo each other ----

  // For a path of the model, exactly the nameable ones come back from their reference.
  lemma PrintThenParse(tree: map<string, Value>, path: seq<string>, node: Value, r: Printed)
    requires Walk(Dict(tree), path) == At(node) && Prints(tree, path, r)
    ensures Parse(tree, r.ref) == Parsed(node, path) <==> Nameable(path)
  {
    if Nameable(path) {
      NameableIsRefPath(path);
    } else if RefPath(r.ref).Some? {
      RefPathIsNameable(r.ref);
    }
  }

  // A reference that parses is what its path prints as.
  lemma ParseThenPrint(tree: map<string, Value>, ref: string, r: Printed)
    requires Parse(tree, ref).Parsed? && (Parse(tree, ref).path != [] || ref == "")
    requires Prints(tree, Parse(tree, ref).path, r)
    ensures r == Printed(ref, Parse(tree, ref).node)
  {
    RefPathIsNameable(ref);
  }

  // What a parse can return: the node that the reference's names lead to, or nothing.
  lemma ParseIff(tree: map<string, Value>, ref: string, node: Value, path: seq<string>)
    requires path != []
    ensures Parse(tree, ref) == Parsed(node, path) <==>
            Nameable(path) && PrintRef(path) == ref && Walk(Dict(tree), path) == At(node)
  {
    if Nameable(path) {
      NameableIsRefPath(path);
    }
    if RefPath(ref).Some? {
      RefPathIsNameable(ref);
    }
  }

  // ---- updating a node from the device ----

  // What the device answers to one update: the value read, and the directory below.
  datatype Reading = Read(value: string, typeName: string) | Refused(error: int)
  datatype Device = Device(reading: Reading, directory: map<string, Value>)

  datatype Change<T> = Change(result: T, err: int) | Failed

  predicate IsAttribute(v: Value) {
    v.Dict? && "reftype" in v.entries && v.entries["reftype"] == Text("DA")
  }

  predicate IsReadable(v: Value) {
    IsAttribute(v) && "FC" in v.entries && v.entries["FC"].Text?
  }

  // A directory is only asked for below a logical device.
  function Directory(dev: Device, ref: string): map<string, Value> {
    if '/' in ref then dev.directory else map[]
  }

  function Refreshed(v: Value, ref: string, dev: Device): Change<Value> {
    if v.Text? && Occurs("reftype", v.text) then Failed
    else if IsAttribute(v) then
      if !IsReadable(v) then Failed
      else match dev.reading
        case Read(value, typeName) =>
          Change(Dict(v.entries["value" := Text(value)]["type" := Text(typeName)]), 0)
        case Refused(error) => Change(v, error)
    else
      var below := Directory(dev, ref);
      Change(Dict(below), if below != map[] then 0 else -1)
  }

  // The value with the node at a path replaced.
  function Replaced(v: Value, path: seq<string>, node: Value): Value
    requires Walk(v, path).At?
    decreases |path|
  {
    if path == [] then node
    else Dict(v.entries[path[0] := Replaced(v.entries[path[0]], path[1..], node)])
  }

  lemma ChildReplaced(v: Value, path: seq<string>)
    requires |path| == 1 && Walk(v, path).At?
    ensures v.Dict? && path[0] in v.entries && Walk(v, path) == At(v.entries[path[0]])
    ensures forall node :: Replaced(v, path, node) == Dict(v.entries[path[0] := node])
  {
    assert path[1..] == [];
  }

  // update_recurse on values, from the node that the path starts at.
  function Updated(v: Value, path: seq<string>, ref: string, dev: Device): Change<Value>
    requires Walk(v, path).At?
  {
    if path == [] then Change(v, -1)
    else match Refreshed(Walk(v, path).node, ref, dev)
      case Failed => Failed
      case Change(node, err) => Change(Replaced(v, path, node), err)
  }

  method UpdateRecurse(submodel: Value, path: seq<string>, ref: string, dev: Device)
    returns (c: Change<Value>)
    requires Walk(submodel, path).At?
    ensures c == Updated(submodel, path, ref, dev)
    decreases |path|
  {
    if |path| < 1 {
      return Change(submodel, -1);
    }
    var entries := submodel.entries;
    var node := entries[path[0]];
    if |path| == 1 {
      ChildReplaced(submodel, path);
      if node.Text? && Occurs("reftype", node.text) {
        return Failed;
      }
      if node.Dict? && "reftype" in node.entries && node.entries["reftype"] == Text("DA") {
        if "FC" !in node.entries || !node.entries["FC"].Text? {
          return Failed;
        }
        match dev.reading {
          case Read(value, typeName) =>
            var attribute := node.entries["value" := Text(value)];
            attribute := attribute["type" := Text(typeName)];
            return Change(Dict(entries[path[0] := Dict(attribute)]), 0);
          case Refused(error) =>
            assert entries[path[0] := node] == entries;
            return Change(submodel, error);
        }
      }
      var below := Directory(dev, ref);
      assert Refreshed(node, ref, dev) == Change(Dict(below), if below != map[] then 0 else -1);
      return Change(Dict(entries[path[0] := Dict(below)]), if below != map[] then 0 else -1);
    }
    var inner := UpdateRecurse(node, path[1..], ref, dev);
    match inner {
      case Failed => c := Failed;
      case Change(result, err) => c := Change(Dict(entries[path[0] := result]), err);
    }
  }

  class Model {
    var tree: map<string, Value>

    constructor (tree: map<string, Value>)
      ensures this.tree == tree
    {
      this.tree := tree;
    }

    // Refreshes the node a reference names; None is an exception. It is raised if
    // the parser raises, for a string with "reftype" in it, and for an attribute
    // whose FC is missing or no string. A reference that names nothing, and an
    // exception, leave the tree as it is. Otherwise an attribute gets the value and
    // type that were read, or nothing changes if the reading was refused; any other
    // node becomes the directory that the device gives for it.
    method UpdateValueInModel(ref: string, dev: Device) returns (err: Option<int>)
      modifies this
      ensures var p := Parse(old(tree), ref);
              err.None? <==>
                p.TypeError? || (p.path != [] &&
                  if p.node.Text? then Occurs("reftype", p.node.text)
                  else "reftype" in p.node.entries && p.node.entries["reftype"] == Text("DA")
                       && ("FC" !in p.node.entries || p.node.entries["FC"].Dict?))
      ensures err.None? ==> tree == old(tree)
      ensures var p := Parse(old(tree), ref);
              err.Some? && p.Parsed? && p.path == [] ==> tree == old(tree) && err == Some(-1)
      ensures var p := Parse(old(tree), ref);
              err.Some? && p.Parsed? && p.path != [] && IsAttribute(p.node) ==>
                match dev.reading
                case Refused(error) => tree == old(tree) && err == Some(error)
                case Read(value, typeName) =>
                  && err == Some(0)
                  && Walk(Dict(tree), p.path + ["value"]) == At(Text(value))
                  && Walk(Dict(tree), p.path + ["type"]) == At(Text(typeName))
                  && forall q :: !(q <= p.path) && !(p.path + ["value"] <= q) && !(p.path + ["type"] <= q) ==>
                       Walk(Dict(tree), q) == Walk(Dict(old(tree)), q)
      ensures var p := Parse(old(tree), ref);
              err.Some? && p.Parsed? && p.path != [] && !IsAttribute(p.node) ==>
                && Walk(Dict(tree), p.path) == At(Dict(if '/' in ref then dev.directory else map[]))
                && err == Some(if '/' in ref && dev.directory != map[] then 0 else -1)
                && forall q :: !(q <= p.path) && !(p.path <= q) ==>
                     Walk(Dict(tree), q) == Walk(Dict(old(tree)), q)
    {
      var parsed := ParseRef(tree, ref);
      if parsed.TypeError? {
        return None;
      }
      var c := UpdateRecurse(Dict(tree), parsed.path, ref, dev);
      if c.Failed? {
        return None;
      }
      if parsed.path != [] {
        if IsAttribute(parsed.node) {
          AttributeUpdated(tree, parsed.path, ref, dev);
        } else {
          NodeUpdated(tree, parsed.path, ref, dev);
        }
      }
      tree := c.result.entries;
      err := Some(c.err);
    }
  }

  // ---- what an update changes ----

  predicate Diverge(p: seq<string>, q: seq<string>) {
    !(p <= q) && !(q <= p)
  }

  lemma {:induction false} ReplacedAt(v: Value, path: seq<string>, node: Value)
    requires Walk(v, path).At?
    ensures Walk(Replaced(v, path, node), path) == At(node)
    decreases |path|
  {
    if path != [] {
      ReplacedAt(v.entries[path[0]], path[1..], node);
    }
  }

  lemma {:induction false} ReplacedElsewhere(v: Value, path: seq<string>, node: Value, q: seq<string>)
    requires Walk(v, path).At? && Diverge(path, q)
    ensures Walk(Replaced(v, path, node), q) == Walk(v, q)
    decreases |path|
  {
    if q[0] == path[0] {
      assert path == [path[0]] + path[1..] && q == [q[0]] + q[1..];
      ReplacedElsewhere(v.entries[path[0]], path[1..], node, q[1..]);
    }
  }

  lemma {:induction false} ReplacedSame(v: Value, path: seq<string>)
    requires Walk(v, path).At?
    ensures Replaced(v, path, Walk(v, path).node) == v
    decreases |path|
  {
    if path != [] {
      ReplacedSame(v.entries[path[0]], path[1..]);
      assert v.entries[path[0] := v.entries[path[0]]] == v.entries;
    }
  }

  // An update fails exactly for a string with "reftype" in it and for an attribute
  // without a usable FC.
  lemma UpdateFailsIff(tree: map<string, Value>, path: seq<string>, ref: string, dev: Device)
    requires path != [] && Walk(Dict(tree), path).At?
    ensures var node := Walk(Dict(tree), path).node;
            Updated(Dict(tree), path, ref, dev).Failed? <==>
              if node.Text? then Occurs("reftype", node.text)
              else "reftype" in node.entries && node.entries["reftype"] == Text("DA")
                   && ("FC" !in node.entries || node.entries["FC"].Dict?)
    ensures var c := Updated(Dict(tree), path, ref, dev);
            c.Change? ==> c.result.Dict?
  {}

  // References whose paths diverge from the updated one parse as before, to the same
  // subtree, the same failure or the same error.
  lemma OthersParseAsBefore(tree: map<string, Value>, path: seq<string>, ref: string, dev: Device, other: string)
    requires path != [] && Walk(Dict(tree), path).At?
    requires RefPath(other).Some? ==> Diverge(path, RefPath(other).value)
    ensures var c := Updated(Dict(tree), path, ref, dev);
            c.Change? ==> c.result.Dict? && Parse(c.result.entries, other) == Parse(tree, other)
  {
    UpdateFailsIff(tree, path, ref, dev);
    var c := Refreshed(Walk(Dict(tree), path).node, ref, dev);
    if c.Change? && RefPath(other).Some? {
      ReplacedElsewhere(Dict(tree), path, c.result, RefPath(other).value);
    }
  }

  // Updating an attribute stores the reading in its value and type; every other
  // path that is not above the attribute leads to the same place as before.
  lemma AttributeUpdate(tree: map<string, Value>, path: seq<string>, ref: string, dev: Device, q: seq<string>)
    requires path != [] && Walk(Dict(tree), path).At? && IsReadable(Walk(Dict(tree), path).node)
    ensures var c := Updated(Dict(tree), path, ref, dev);
            match dev.reading
            case Refused(error) => c == Change(Dict(tree), error)
            case Read(value, typeName) =>
              && c.Change? && c.err == 0
              && Walk(c.result, path + ["value"]) == At(Text(value))
              && Walk(c.result, path + ["type"]) == At(Text(typeName))
              && (!(q <= path) && !(path + ["value"] <= q) && !(path + ["type"] <= q) ==>
                    Walk(c.result, q) == Walk(Dict(tree), q))
  {
    var node := Walk(Dict(tree), path).node;
    var node' := Refreshed(node, ref, dev).result;
    var v' := Replaced(Dict(tree), path, node');
    ReplacedAt(Dict(tree), path, node');
    ReplacedSame(Dict(tree), path);
    WalkAppend(v', path, ["value"]);
    WalkAppend(v', path, ["type"]);
    if Diverge(path, q) {
      ReplacedElsewhere(Dict(tree), path, node', q);
    } else if !(q <= path) {
      FieldsBelow(Dict(tree), path, q);
      FieldsBelow(v', path, q);
    }
  }

  lemma AttributeUpdated(tree: map<string, Value>, path: seq<string>, ref: string, dev: Device)
    requires path != [] && Walk(Dict(tree), path).At? && IsReadable(Walk(Dict(tree), path).node)
    ensures var c := Updated(Dict(tree), path, ref, dev);
            match dev.reading
            case Refused(error) => c == Change(Dict(tree), error)
            case Read(value, typeName) =>
              && c.Change? && c.err == 0
              && Walk(c.result, path + ["value"]) == At(Text(value))
              && Walk(c.result, path + ["type"]) == At(Text(typeName))
              && forall q :: !(q <= path) && !(path + ["value"] <= q) && !(path + ["type"] <= q) ==>
                   Walk(c.result, q) == Walk(Dict(tree), q)
  {
    AttributeUpdate(tree, path, ref, dev, []);
    forall q | dev.reading.Read? && !(q <= path) && !(path + ["value"] <= q) && !(path + ["type"] <= q)
      ensures Walk(Updated(Dict(tree), path, ref, dev).result, q) == Walk(Dict(tree), q)
    {
      AttributeUpdate(tree, path, ref, dev, q);
    }
  }

  lemma FieldsBelow(v: Value, path: seq<string>, q: seq<string>)
    requires Walk(v, path).At? && path <= q && path != q
    ensures Walk(v, q) == Walk(Walk(v, path).node, [q[|path|]] + q[|path| + 1..])
    ensures path + [q[|path|]] <= q
  {
    var rest := q[|path|..];
    assert q == path + rest;
    assert rest == [q[|path|]] + q[|path| + 1..];
    WalkAppend(v, path, rest);
  }

  lemma NodeUpdated(tree: map<string, Value>, path: seq<string>, ref: string, dev: Device)
    requires path != [] && Walk(Dict(tree), path).At? && !IsAttribute(Walk(Dict(tree), path).node)
    requires var node := Walk(Dict(tree), path).node; node.Text? ==> !Occurs("reftype", node.text)
    ensures var c := Updated(Dict(tree), path, ref, dev);
            && c.Change? && c.err == (if '/' in ref && dev.directory != map[] then 0 else -1)
            && Walk(c.result, path) == At(Dict(if '/' in ref then dev.directory else map[]))
            && forall q :: Diverge(path, q) ==> Walk(c.result, q) == Walk(Dict(tree), q)
  {
    var node' := Dict(Directory(dev, ref));
    ReplacedAt(Dict(tree), path, node');
    forall q | Diverge(path, q)
      ensures Walk(Replaced(Dict(tree), path, node'), q) == Walk(Dict(tree), q)
    {
      ReplacedElsewhere(Dict(tree), path, node', q);
    }
  }

  // Any other node is replaced by the directory the device gives for it. When that is
  // empty, as it always is for a logical device, the node is emptied, with the error -1.
  lemma NodeUpdate(tree: map<string, Value>, path: seq<string>, ref: string, dev: Device)
    requires path != [] && Walk(Dict(tree), path).At? && !IsAttribute(Walk(Dict(tree), path).node)
    requires var node := Walk(Dict(tree), path).node; node.Text? ==> !Occurs("reftype", node.text)
    requires PrintRef(path) == ref && Nameable(path)
    ensures var c := Updated(Dict(tree), path, ref, dev);
            && c.Change? && c.result.Dict?
            && Parse(c.result.entries, ref) == Parsed(Dict(if |path| == 1 then map[] else dev.directory), path)
            && c.err == if |path| > 1 && dev.directory != map[] then 0 else -1
  {
    NodeUpdated(tree, path, ref, dev);
    UpdateFailsIff(tree, path, ref, dev);
    NameableIsRefPath(path);
    if |path| > 1 {
      assert ref[|path[0]|] == '/';
    }
  }

  // ---- what the lookups mean ----

  lemma {:induction false} OccursIff(x: string, s: string)
    ensures Occurs(x, s) <==> exists i: nat :: i <= |s| && x <= s[i..]
  {
    if x <= s {
      assert s[0..] == s;
    } else if s != [] {
      var t := s[1..];
      OccursIff(x, t);
      if i: nat :| i <= |t| && x <= t[i..] {
        assert s[i + 1..] == t[i..];
      }
      if i: nat :| i <= |s| && x <= s[i..] {
        assert i > 0 by {
          assert s[0..] == s;
        }
        assert t[i - 1..] == s[i..];
      }
    }
  }

  // nodes are the values that the names of a path lead through, from v on.
  ghost predicate Leads(v: Value, path: seq<string>, nodes: seq<Value>) {
    && |nodes| == |path| + 1 && nodes[0] == v
    && forall i :: 0 <= i < |path| ==>
         nodes[i].Dict? && path[i] in nodes[i].entries && nodes[i + 1] == nodes[i].entries[path[i]]
  }

  // Where a path leads, or where it ends: at a dictionary or a string that does not
  // have the next name, or at a string that has it.
  lemma {:induction false} WalkLeads(v: Value, path: seq<string>) returns (nodes: seq<Value>)
    ensures 0 < |nodes| <= |path| + 1 && Leads(v, path[..|nodes| - 1], nodes)
    ensures var end := nodes[|nodes| - 1];
            match Walk(v, path)
            case At(node) => |nodes| == |path| + 1 && end == node
            case Missing => |nodes| <= |path| && (if end.Dict? then path[|nodes| - 1] !in end.entries
                                                  else !Occurs(path[|nodes| - 1], end.text))
            case Raised => |nodes| <= |path| && end.Text? && Occurs(path[|nodes| - 1], end.text)
    decreases |path|
  {
    nodes := [v];
    if path != [] && v.Dict? && path[0] in v.entries {
      var rest := WalkLeads(v.entries[path[0]], path[1..]);
      nodes := [v] + rest;
      assert path[..|nodes| - 1] == [path[0]] + path[1..][..|rest| - 1];
    }
  }

  // What a parse comes to: a reference with more than one '/' names nothing; another
  // leads to a node, or nowhere, or raises where a string has the next name in it.
  lemma ParseOutcome(tree: map<string, Value>, ref: string) returns (path: seq<string>, nodes: seq<Value>)
    ensures Parse(tree, ref) == Parsed(NOTHING, []) || (Nameable(path) && PrintRef(path) == ref)
    ensures RefPath(ref).None? ==> Parse(tree, ref) == Parsed(NOTHING, [])
    ensures RefPath(ref) == Some(path) ==>
              && 0 < |nodes| <= |path| + 1 && Leads(Dict(tree), path[..|nodes| - 1], nodes)
              && var end := nodes[|nodes| - 1];
                 if |nodes| == |path| + 1 then Parse(tree, ref) == Parsed(end, path)
                 else if end.Text? && Occurs(path[|nodes| - 1], end.text) then Parse(tree, ref) == TypeError
                 else Parse(tree, ref) == Parsed(Dict(map[]), [])
                      && (end.Dict? ==> path[|nodes| - 1] !in end.entries)
    ensures RefPath(ref).None? || RefPath(ref) == Some(path)
  {
    path, nodes := [], [Dict(tree)];
    if RefPath(ref).Some? {
      path := RefPath(ref).value;
      RefPathIsNameable(ref);
      nodes := WalkLeads(Dict(tree), path);
    }
  }

  // A reference has no path exactly if it has more than one '/'.
  lemma NoPathIff(ref: string)
    ensures RefPath(ref).None? <==> exists i, j :: 0 <= i < j < |ref| && ref[i] == '/' && ref[j] == '/'
  {
    var parts := Split(ref, '/');
    SplitCounts(ref, '/');
  }

  lemma {:induction false} SplitCounts(s: string, c: char)
    ensures |Split(s, c)| >= 2 <==> exists i :: 0 <= i < |s| && s[i] == c
    ensures |Split(s, c)| >= 3 <==> exists i, j :: 0 <= i < j < |s| && s[i] == c && s[j] == c
  {
    if s != [] {
      var t := s[1..];
      SplitCounts(t, c);
      if i :| 0 <= i < |t| && t[i] == c {
        assert s[i + 1] == c;
      }
      if i, j :| 0 <= i < j < |t| && t[i] == c && t[j] == c {
        assert s[i + 1] == c && s[j + 1] == c;
      }
      if i :| 1 <= i < |s| && s[i] == c {
        assert t[i - 1] == c;
      }
      if i, j :| 1 <= i < j < |s| && s[i] == c && s[j] == c {
        assert t[i - 1] == c && t[j - 1] == c;
      }
    }
  }
}
