/** Decoded JSON as the pipelines see it, and the few Python operations they
    apply to it: truthiness, `dict.get`, `obj[key]`, iteration, and flattening
    a list of nested objects into the `", "`-joined string of their names. */
module Json {
  import opened Wrappers
  import opened Text

  /** A decoded JSON value. Numbers are opaque: they are only passed through. */
  datatype Json =
    | JNull
    | JBool(b: bool)
    | JNum(n: real)
    | JStr(s: string)
    | JList(items: seq<Json>)
    | JObj(fields: map<string, Json>)

  const EmptyList: Json := JList([])
  const EmptyDict: Json := JObj(map[])

  /** The separator every flattened list column uses. */
  const NameSeparator: string := ", "

  /** Python truthiness: `None`, `False`, zero and empty containers are false. */
  predicate Truthy(j: Json)
  {
    match j
    case JNull => false
    case JBool(b) => b
    case JNum(n) => n != 0.0
    case JStr(s) => s != ""
    case JList(items) => items != []
    case JObj(fields) => fields != map[]
  }

  /** `d.get(key, default)` on a value already known to be a dict (`default` otherwise). */
  function Lookup(j: Json, key: string, default: Json): Json
  {
    if j.JObj? && key in j.fields then j.fields[key] else default
  }

  /** `j.get(key)`: raises unless `j` is a dict; a missing key gives `None`. */
  function Get(j: Json, key: string): (r: Result<Json>)
    ensures r.Ok? <==> j.JObj?
    ensures r.Ok? && key !in j.fields ==> r.value == JNull
    ensures r.Ok? && key in j.fields ==> r.value == j.fields[key]
  {
    if j.JObj? then Ok(Lookup(j, key, JNull)) else Err
  }

  /** `j[key]` with a string key: only a dict holding `key` succeeds
      (KeyError on a dict without it, TypeError on anything else). */
  function Subscript(j: Json, key: string): Result<Json>
  {
    if j.JObj? && key in j.fields then Ok(j.fields[key]) else Err
  }

  /** `j[path[0]][path[1]]...`, which must end at a string for `str.join` to accept it. */
  function StringAt(j: Json, path: seq<string>): Result<string>
    decreases |path|
  {
    if path == [] then (if j.JStr? then Ok(j.s) else Err)
    else
      var next :- Subscript(j, path[0]);
      StringAt(next, path[1..])
  }

  /** The elements a `for` loop over `j` yields, where every element is then
      subscripted with a string key. A list yields its items; an empty string or
      dict yields nothing. A non-empty string or dict yields strings, whose
      subscription raises, and any other value is not iterable: both are `Err`. */
  function Elements(j: Json): Result<seq<Json>>
  {
    match j
    case JList(items) => Ok(items)
    case JStr(s) => if s == "" then Ok([]) else Err
    case JObj(fields) => if fields == map[] then Ok([]) else Err
    case _ => Err
  }

  /** The strings at `path` inside each item, in order; `Err` as soon as one is missing. */
  function NamesAt(items: seq<Json>, path: seq<string>): (r: Result<seq<string>>)
    ensures r.Ok? ==> |r.value| == |items|
    ensures r.Ok? ==> forall i :: 0 <= i < |items| ==> StringAt(items[i], path) == Ok(r.value[i])
    ensures r.Err? ==> exists i :: 0 <= i < |items| && StringAt(items[i], path).Err?
  {
    if items == [] then Ok([])
    else
      var first :- StringAt(items[0], path);
      var rest :- NamesAt(items[1..], path);
      assert forall i :: 1 <= i < |items| ==> items[i] == items[1..][i - 1];
      Ok([first] + rest)
  }

  /** `field` can be flattened: an empty string or dict, or a list whose every
      item holds a string at `path`. */
  predicate IsNameList(field: Json, path: seq<string>)
  {
    || field == JStr("")
    || field == EmptyDict
    || (field.JList? && forall i :: 0 <= i < |field.items| ==> StringAt(field.items[i], path).Ok?)
  }

  /** `", ".join(x[path...] for x in field)`. */
  function JoinedNames(field: Json, path: seq<string>): (r: Result<string>)
    ensures r.Ok? <==> IsNameList(field, path)
  {
    var items :- Elements(field);
    var names :- NamesAt(items, path);
    Ok(Join(names, NameSeparator))
  }

  /** The string at `path` in `j`, if any, has no comma. */
  predicate CommaFreeAt(j: Json, path: seq<string>)
  {
    match StringAt(j, path)
    case Ok(name) => ',' !in name
    case Err => true
  }

  /** Splitting `cell` at `", "` gives, entry by entry and in order, the string at `path` of each item. */
  predicate SplitsBackTo(cell: string, items: seq<Json>, path: seq<string>)
  {
    var parts := Split(cell, NameSeparator);
    |parts| == |items| && forall i :: 0 <= i < |items| ==> StringAt(items[i], path) == Ok(parts[i])
  }

  /** `names` are, one per item and in order, the strings at `path` of `items`. */
  predicate NamesOf(items: seq<Json>, path: seq<string>, names: seq<string>)
  {
    |names| == |items| && forall i :: 0 <= i < |items| ==> StringAt(items[i], path) == Ok(names[i])
  }

  /** What a flattened list column holds: a string; empty for an empty list;
      for a list, its items' names in input order joined by `", "`; and, when
      those names are comma-free, a string that splits back into them. */
  ghost predicate ListedNames(cell: Json, field: Json, path: seq<string>)
  {
    && cell.JStr?
    && (field == EmptyList ==> cell.s == "")
    && (field.JList? ==> forall names :: NamesOf(field.items, path, names) ==> cell.s == Join(names, NameSeparator))
    && (field.JList? && field.items != [] && (forall i :: 0 <= i < |field.items| ==> CommaFreeAt(field.items[i], path))
        ==> SplitsBackTo(cell.s, field.items, path))
  }

  /** Flattening loses nothing: the joined string splits back into the names. */
  lemma JoinedNamesSplitBack(field: Json, path: seq<string>)
    requires JoinedNames(field, path).Ok?
    ensures ListedNames(JStr(JoinedNames(field, path).value), field, path)
  {
    if field.JList? {
      var found := NamesAt(field.items, path).value;
      forall names | NamesOf(field.items, path, names)
        ensures names == found
      {
        forall i | 0 <= i < |names| ensures names[i] == found[i] {
          assert StringAt(field.items[i], path) == Ok(found[i]);
        }
      }
    }
    if field.JList? && field.items != [] && (forall i :: 0 <= i < |field.items| ==> CommaFreeAt(field.items[i], path)) {
      var names := NamesAt(field.items, path).value;
      forall k | 0 <= k < |names| ensures NameSeparator[0] !in names[k] {
        assert StringAt(field.items[k], path) == Ok(names[k]);
        assert CommaFreeAt(field.items[k], path);
      }
      SplitJoin(names, NameSeparator);
    }
  }

  /** `[{"name": "RPG"}, {"name": "Action"}]` flattens to `"RPG, Action"`, an empty list to `""`. */
  lemma JoinedNamesExample()
    ensures JoinedNames(JList([JObj(map["name" := JStr("RPG")]), JObj(map["name" := JStr("Action")])]), ["name"])
      == Ok("RPG, Action")
    ensures JoinedNames(EmptyList, ["name"]) == Ok("")
  {
    var rpg := JObj(map["name" := JStr("RPG")]);
    var action := JObj(map["name" := JStr("Action")]);
    assert StringAt(rpg, ["name"]) == Ok("RPG");
    assert StringAt(action, ["name"]) == Ok("Action");
    assert [rpg, action][1..] == [action];
    assert [action][1..] == [];
    assert NamesAt([], ["name"]) == Ok([]);
    var one := NamesAt([action], ["name"]);
    assert StringAt([action][0], ["name"]) == Ok("Action");
    assert one.Ok?;
    assert one.value == ["Action"];
    assert NamesAt([action], ["name"]) == Ok(["Action"]);
    var items := [rpg, action];
    assert StringAt(items[0], ["name"]) == Ok("RPG");
    assert items[1..] == [action];
    var two := NamesAt(items, ["name"]);
    assert two.Ok? && two.value == ["RPG", "Action"];
    assert Elements(JList(items)) == Ok(items);
    assert ["RPG", "Action"][1..] == ["Action"];
    assert Join(["RPG", "Action"], NameSeparator) == "RPG" + ", " + "Action";
    assert "RPG" + ", " + "Action" == "RPG, Action";
  }
}
