/**
 * The client-side `Model` base class of src/index.ts: it remembers the primary key
 * an instance was loaded with, and turns saves, updates and deletes into
 * PostgREST requests whose query string filters rows with `column=op.value`.
 * The network is not modelled: an operation yields the request it would send.
 */
module ModelCrud {
  import opened Wrappers
  import opened Strings
  import opened OrderedMaps
  import opened UriEncoding

  /** The JavaScript values a model field holds; a `Date` is represented by its `toJSON()` text. */
  datatype JsValue = Undefined | Null | Bool(b: bool) | Num(n: int) | Str(s: string) | Date(iso: string)

  /** `String(v)` for the values `to_update_arg` hands to `encodeURIComponent`. */
  function Text(v: JsValue): string
  {
    match v
    case Undefined => "undefined"
    case Null => "null"
    case Bool(b) => if b then "true" else "false"
    case Num(n) => IntToString(n)
    case Str(s) => s
    case Date(iso) => iso
  }

  /** `to_update_arg(v)`: the PostgREST operator and operand for one filter value. */
  function ToUpdateArg(v: JsValue): string
  {
    if v.Undefined? || v.Null? then "is.null"
    else if v.Date? then "eq." + Encode(v.iso)
    else if v.Bool? then "is." + Text(v)
    else "eq." + Encode(Text(v))
  }

  /**
   * The filter tells null and booleans apart by the `is` operator; every other value is
   * compared with `eq` and its text is recovered by `decodeURIComponent`.
   */
  lemma ToUpdateArgMeaning(v: JsValue)
    ensures var r := ToUpdateArg(v);
      |r| >= 3 &&
      (r[..3] == "is." <==> v.Undefined? || v.Null? || v.Bool?) &&
      (v.Undefined? || v.Null? ==> r == "is.null") &&
      (v.Bool? ==> r == if v.b then "is.true" else "is.false") &&
      (r[..3] == "eq." ==> Decode(r[3..]) == Some(Text(v)))
  {
    var r := ToUpdateArg(v);
    if !(v.Undefined? || v.Null? || v.Bool?) {
      assert r[..3] == "eq.";
      assert r[3..] == Encode(Text(v));
      DecodeEncode(Text(v));
    }
  }

  lemma ToUpdateArgHasNoSeparator(v: JsValue)
    ensures '&' !in ToUpdateArg(v)
  {
    if !(v.Undefined? || v.Null? || v.Bool?) {
      EncodeHasNoSeparators(Text(v));
      assert ToUpdateArg(v) == "eq." + Encode(Text(v));
    }
  }

  // ---------------------------------------------------------------------------
  // Filters and requests

  /** The table a model class maps to: `url`, `schema`, the names in `columns`, `pk_fields`. */
  datatype Meta = Meta(url: string, schema: string, columns: seq<string>, pkFields: seq<string>)

  /** A request as it would be sent: the method and the URL. */
  datatype Request = Request(verb: string, url: string)

  /** One `name=to_update_arg(value)` filter. */
  function Filter(name: string, v: JsValue): string
  {
    name + "=" + ToUpdateArg(v)
  }

  /** One filter per entry. */
  function FilterParts(entries: seq<(string, JsValue)>): (parts: seq<string>)
  {
    seq(|entries|, i requires 0 <= i < |entries| => Filter(entries[i].0, entries[i].1))
  }

  /** The value an object holds under `k`, `undefined` when it has none. */
  function ValueOf(obj: seq<(string, JsValue)>, k: string): JsValue
  {
    match Get(obj, k)
    case Some(v) => v
    case None => Undefined
  }

  /** The current key's names paired with the values of the key the instance was loaded with. */
  function OldKeyEntries(pk: seq<(string, JsValue)>, oldPk: seq<(string, JsValue)>): (r: seq<(string, JsValue)>)
  {
    seq(|pk|, i requires 0 <= i < |pk| => (pk[i].0, ValueOf(oldPk, pk[i].0)))
  }

  /** The query parts of `update(...keys)`: the old key filters, then the column list. */
  function UpdateParts(pk: seq<(string, JsValue)>, oldPk: seq<(string, JsValue)>, keys: seq<string>): seq<string>
  {
    FilterParts(OldKeyEntries(pk, oldPk)) + (if |keys| > 0 then ["columns=" + Join(keys, ",")] else [])
  }

  /** The request `update(...keys)` sends, or the error it throws. */
  function UpdateRequest(meta: Meta, pk: Option<seq<(string, JsValue)>>, oldPk: Option<seq<(string, JsValue)>>,
                         keys: seq<string>): Result<Request, string>
  {
    if pk.None? || |pk.value| == 0 || oldPk.None? then Err("can't instance-update an item without primary key")
    else Ok(Request("PATCH", meta.url + "?" + Join(UpdateParts(pk.value, oldPk.value, keys), "&")))
  }

  /** The request `delete()` sends, or the error it throws. */
  function DeleteRequest(meta: Meta, pk: Option<seq<(string, JsValue)>>): Result<Request, string>
  {
    if pk.None? || |pk.value| == 0 then Err("can't instance-delete an item without primary key")
    else Ok(Request("DELETE", meta.url + "?" + Join(FilterParts(pk.value), "&")))
  }

  lemma FilterStep(entries: seq<(string, JsValue)>, i: nat)
    requires i < |entries|
    ensures FilterParts(entries)[..i + 1] == FilterParts(entries)[..i] + [Filter(entries[i].0, entries[i].1)]
  {
    assert FilterParts(entries)[..i + 1] == FilterParts(entries)[..i] + [FilterParts(entries)[i]];
  }

  predicate PlainName(name: string)
  {
    '&' !in name && '=' !in name
  }

  lemma PartsHaveNoAmpersand(entries: seq<(string, JsValue)>)
    requires forall i :: 0 <= i < |entries| ==> PlainName(entries[i].0)
    ensures forall i :: 0 <= i < |entries| ==> '&' !in FilterParts(entries)[i]
  {
    forall i | 0 <= i < |entries| ensures '&' !in FilterParts(entries)[i] {
      ToUpdateArgHasNoSeparator(entries[i].1);
      assert FilterParts(entries)[i] == Filter(entries[i].0, entries[i].1);
    }
  }

  /**
   * The query string of `update` reads back as its parts: each key column of the
   * current key, filtered by the value of the key the instance was loaded with,
   * then the column list when keys were given.
   */
  lemma UpdateQueryParts(meta: Meta, pk: seq<(string, JsValue)>, oldPk: seq<(string, JsValue)>, keys: seq<string>)
    requires |pk| > 0 && forall i :: 0 <= i < |pk| ==> PlainName(pk[i].0)
    requires forall i :: 0 <= i < |keys| ==> '&' !in keys[i]
    ensures UpdateRequest(meta, Some(pk), Some(oldPk), keys).Ok?
    ensures var url := UpdateRequest(meta, Some(pk), Some(oldPk), keys).value.url;
      |url| > |meta.url| && url[..|meta.url| + 1] == meta.url + "?" &&
      var parts := Split(url[|meta.url| + 1..], '&');
      |parts| == |pk| + (if |keys| > 0 then 1 else 0) &&
      (forall i :: 0 <= i < |pk| ==> parts[i] == pk[i].0 + "=" + ToUpdateArg(ValueOf(oldPk, pk[i].0))) &&
      (|keys| > 0 ==> parts[|pk|] == "columns=" + Join(keys, ","))
  {
    var entries := OldKeyEntries(pk, oldPk);
    var parts := UpdateParts(pk, oldPk, keys);
    PartsHaveNoAmpersand(entries);
    if |keys| > 0 {
      assert '&' !in Join(keys, ",") by { JoinKeepsOut(keys, ",", '&'); }
      assert '&' !in "columns=" + Join(keys, ",");
    }
    assert forall i :: 0 <= i < |parts| ==> '&' !in parts[i];
    SplitJoin(parts, '&');
    var url := meta.url + "?" + Join(parts, "&");
    assert url[..|meta.url| + 1] == meta.url + "?";
    assert url[|meta.url| + 1..] == Join(parts, "&");
  }

  lemma {:induction false} JoinKeepsOut(parts: seq<string>, sep: string, c: char)
    requires c !in sep && forall i :: 0 <= i < |parts| ==> c !in parts[i]
    ensures c !in Join(parts, sep)
  {
    if |parts| > 1 {
      JoinKeepsOut(parts[1..], sep, c);
    }
  }

  /**
   * `remove(suffix)`: an empty or missing suffix throws; a suffix without a leading
   * `?` gets one.
   */
  function RemoveRequest(meta: Meta, suffix: Option<string>): (r: Result<Request, string>)
    ensures r.Ok? <==> suffix.Some? && |suffix.value| > 0
  {
    if suffix.None? || |suffix.value| == 0 then Err("suppl cannot be empty")
    else
      var s := if suffix.value[0] != '?' then "?" + suffix.value else suffix.value;
      Ok(Request("DELETE", meta.url + s))
  }

  /** A query with or without its leading `?` removes the same rows. */
  lemma RemoveQuestionMark(meta: Meta, q: string)
    requires |q| > 0 && q[0] != '?'
    ensures RemoveRequest(meta, Some(q)) == RemoveRequest(meta, Some("?" + q))
    ensures RemoveRequest(meta, Some(q)).value.url == meta.url + "?" + q
  {
  }

  /** `saveMany(models)`: nothing is sent for an empty list. */
  function SaveManyRequest(meta: Meta, count: nat): (r: Option<Request>)
    ensures r.None? <==> count == 0
    ensures r.Some? ==> r.value == Request("POST", meta.url)
  {
    if count == 0 then None else Some(Request("POST", meta.url))
  }

  /** The fields `create(defs)` sets: the defined values of the names in `meta.columns`. */
  function Created(columns: seq<string>, defs: map<string, JsValue>): (fields: map<string, JsValue>)
  {
    if |columns| == 0 then map[]
    else
      var prev := Created(columns[..|columns| - 1], defs);
      var name := columns[|columns| - 1];
      if name in defs && defs[name] != Undefined then prev[name := defs[name]] else prev
  }

  lemma {:induction false} CreatedFields(columns: seq<string>, defs: map<string, JsValue>, n: string)
    ensures n in Created(columns, defs) <==> n in columns && n in defs && defs[n] != Undefined
    ensures n in Created(columns, defs) ==> Created(columns, defs)[n] == defs[n]
  {
    if |columns| > 0 {
      CreatedFields(columns[..|columns| - 1], defs, n);
      assert columns == columns[..|columns| - 1] + [columns[|columns| - 1]];
    }
  }

  // ---------------------------------------------------------------------------
  // Model instances

  class ModelInstance {
    const meta: Meta
    var fields: map<string, JsValue>
    /** `__old_pk`: the key the instance was loaded with, if any. */
    var oldPk: Option<seq<(string, JsValue)>>

    function Field(name: string): JsValue
      reads this
    {
      if name in fields then fields[name] else Undefined
    }

    /** The named fields with their values. */
    function FieldEntries(names: seq<string>): (r: seq<(string, JsValue)>)
      reads this
    {
      seq(|names|, i requires 0 <= i < |names| reads this => (names[i], Field(names[i])))
    }

    /**
     * `__pk`: undefined for a table without a primary key or while any key column
     * is null or undefined; otherwise the key columns and their values.
     */
    function Pk(): (r: Option<seq<(string, JsValue)>>)
      reads this
      ensures r.Some? <==> (|meta.pkFields| > 0 &&
                            forall i :: 0 <= i < |meta.pkFields| ==> !Field(meta.pkFields[i]).Null? && !Field(meta.pkFields[i]).Undefined?)
      ensures r.Some? ==> r.value == FieldEntries(meta.pkFields)
    {
      if |meta.pkFields| == 0 then None
      else if exists i :: 0 <= i < |meta.pkFields| && (Field(meta.pkFields[i]).Null? || Field(meta.pkFields[i]).Undefined?)
      then None
      else Some(FieldEntries(meta.pkFields))
    }

    constructor (meta: Meta, fields: map<string, JsValue>)
      ensures this.meta == meta && this.fields == fields && oldPk == None
    {
      this.meta := meta;
      this.fields := fields;
      oldPk := None;
    }

    /** The deserialise hook: remembers the current key when there is one. */
    method OnDeserialized()
      modifies this
      ensures fields == old(fields)
      ensures oldPk == if old(Pk()).Some? then old(Pk()) else old(oldPk)
    {
      var pk := Pk();
      if pk.Some? {
        oldPk := pk;
      }
    }

    /** `resetPk()`. */
    method ResetPk()
      modifies this
      ensures fields == old(fields) && oldPk == None
    {
      oldPk := None;
    }

    /** `update(...keys)`. */
    method Update(keys: seq<string>) returns (r: Result<Request, string>)
      ensures r == UpdateRequest(meta, Pk(), oldPk, keys)
    {
      var pk := Pk();
      if pk.None? || |pk.value| == 0 || oldPk.None? {
        return Err("can't instance-update an item without primary key");
      }
      var parts := LoadedKeyFilters(pk.value, oldPk.value);
      if |keys| > 0 {
        parts := parts + ["columns=" + Join(keys, ",")];
      }
      assert parts == UpdateParts(pk.value, oldPk.value, keys);
      assert |parts| > 0;
      var url := meta.url + (if |parts| > 0 then "?" + Join(parts, "&") else "");
      assert url == meta.url + "?" + Join(parts, "&");
      r := Ok(Request("PATCH", url));
    }

    /** `save()`: an update when the instance was loaded with a key, a POST otherwise. */
    method Save() returns (r: Result<Request, string>)
      ensures oldPk.Some? ==> r == UpdateRequest(meta, Pk(), oldPk, [])
      ensures oldPk.None? ==> r == Ok(Request("POST", meta.url))
    {
      if oldPk.Some? {
        r := Update([]);
        return;
      }
      return Ok(Request("POST", meta.url));
    }

    /** `delete()`: filters by the current field values of the key columns. */
    method Delete() returns (r: Result<Request, string>)
      ensures r == DeleteRequest(meta, Pk())
    {
      var pk := Pk();
      if pk.None? || |pk.value| == 0 {
        return Err("can't instance-delete an item without primary key");
      }
      var parts := CurrentFilters(meta.pkFields);
      r := Ok(Request("DELETE", meta.url + "?" + Join(parts, "&")));
    }

    /** The loop of `delete`: one filter per key column, by the field's current value. */
    method CurrentFilters(names: seq<string>) returns (parts: seq<string>)
      ensures parts == FilterParts(FieldEntries(names))
    {
      parts := [];
      var i := 0;
      while i < |names|
        invariant 0 <= i <= |names|
        invariant parts == FilterParts(FieldEntries(names))[..i]
      {
        var x := names[i];
        FilterStep(FieldEntries(names), i);
        parts := parts + [Filter(x, Field(x))];
        i := i + 1;
      }
    }
  }

  /** The loop of `update`: one filter per key column, by the loaded key's value. */
  method LoadedKeyFilters(pk: seq<(string, JsValue)>, oldPk: seq<(string, JsValue)>) returns (parts: seq<string>)
    ensures parts == FilterParts(OldKeyEntries(pk, oldPk))
  {
    parts := [];
    var i := 0;
    while i < |pk|
      invariant 0 <= i <= |pk|
      invariant parts == FilterParts(OldKeyEntries(pk, oldPk))[..i]
    {
      var x := pk[i].0;
      FilterStep(OldKeyEntries(pk, oldPk), i);
      parts := parts + [Filter(x, ValueOf(oldPk, x))];
      i := i + 1;
    }
  }

  /**
   * When the loaded key has the same columns as the current one, `update` filters
   * exactly by the loaded key, whatever the key fields hold now; `delete` filters by
   * what they hold now.
   */
  lemma UpdateFiltersByLoadedKey(pk: seq<(string, JsValue)>, oldPk: seq<(string, JsValue)>)
    requires |pk| == |oldPk| && DistinctKeys(oldPk)
    requires forall i :: 0 <= i < |pk| ==> pk[i].0 == oldPk[i].0
    ensures UpdateParts(pk, oldPk, []) == FilterParts(oldPk)
  {
    forall i | 0 <= i < |pk| ensures ValueOf(oldPk, pk[i].0) == oldPk[i].1 {
      IndexOfDistinct(oldPk, i);
    }
    assert OldKeyEntries(pk, oldPk) == oldPk;
  }

  lemma IndexOfDistinct<K, V>(m: seq<(K, V)>, i: nat)
    requires DistinctKeys(m) && i < |m|
    ensures Get(m, m[i].0) == Some(m[i].1)
  {
    var r := IndexOf(m, m[i].0);
    assert r.Some?;
    assert r.value == i;
  }

  /**
   * `Object.keys(meta.columns)`. The `PgtsMeta` interface declares `columns` as an
   * object keyed by column name, whose keys are the names (`emitted` unset). The
   * generated classes hold an array of the names instead, whose keys are its indices
   * "0", "1", … as text (`emitted` set).
   */
  function ColumnKeys(columns: seq<string>, emitted: bool): (r: seq<string>)
    ensures |r| == |columns|
    ensures forall i :: 0 <= i < |r| ==> r[i] == if emitted then NatToString(i) else columns[i]
  {
    if emitted then seq(|columns|, i requires 0 <= i => NatToString(i)) else columns
  }

  /**
   * `Model.create(defs)`. `new this()` runs the field initialisers of the generated
   * class, which give the values `init`; then every key of `meta.columns` whose value
   * in `defs` is defined is overwritten with it.
   */
  method Create(meta: Meta, init: map<string, JsValue>, defs: map<string, JsValue>, emitted: bool)
    returns (val: ModelInstance)
    ensures fresh(val) && val.meta == meta && val.oldPk == None
    ensures val.fields == init + Created(ColumnKeys(meta.columns, emitted), defs)
  {
    val := new ModelInstance(meta, init);
    var keys := ColumnKeys(meta.columns, emitted);
    var i := 0;
    while i < |keys|
      invariant 0 <= i <= |keys|
      invariant val.meta == meta && val.oldPk == None
      invariant val.fields == init + Created(keys[..i], defs)
      modifies val
    {
      var name := keys[i];
      assert keys[..i + 1][..i] == keys[..i];
      if name in defs && defs[name] != Undefined {
        ghost var prev := Created(keys[..i], defs);
        assert (init + prev)[name := defs[name]] == init + prev[name := defs[name]];
        val.fields := val.fields[name := defs[name]];
      }
      i := i + 1;
    }
    assert keys[..i] == keys;
  }

  /**
   * As written, `create` on a generated class keeps every initialiser's value when no
   * key of `defs` is a run of digits: the keys it reads are array indices.
   */
  lemma CreateOnEmittedColumns(columns: seq<string>, init: map<string, JsValue>, defs: map<string, JsValue>)
    requires forall n :: n in defs ==> !AllDigits(n)
    ensures init + Created(ColumnKeys(columns, true), defs) == init
  {
    var keys := ColumnKeys(columns, true);
    forall n | n in Created(keys, defs)
      ensures false
    {
      CreatedFields(keys, defs, n);
    }
    assert Created(keys, defs) == map[];
  }

  /**
   * A generated class with the column `a`: `create({a: 1})` leaves `a` unset as
   * written, and sets it when the keys are the column names.
   */
  lemma CreateDropsNamedValue(init: map<string, JsValue>)
    requires "a" !in init
    ensures "a" !in init + Created(ColumnKeys(["a"], true), map["a" := Num(1)])
    ensures var fields := init + Created(ColumnKeys(["a"], false), map["a" := Num(1)]);
      "a" in fields && fields["a"] == Num(1)
  {
    assert !AllDigits("a") by { assert !IsDigit("a"[0]); }
    CreateOnEmittedColumns(["a"], init, map["a" := Num(1)]);
    CreatedOverInitialisers(["a"], init, map["a" := Num(1)], "a");
  }

  /**
   * After `create`, a column given a defined value in `defs` holds it, and every other
   * field keeps the value its initialiser gave it.
   */
  lemma CreatedOverInitialisers(columns: seq<string>, init: map<string, JsValue>, defs: map<string, JsValue>, n: string)
    ensures var fields := init + Created(columns, defs);
      if n in columns && n in defs && defs[n] != Undefined then n in fields && fields[n] == defs[n]
      else (n in fields <==> n in init) && (n in init ==> fields[n] == init[n])
  {
    CreatedFields(columns, defs, n);
  }

  // ---------------------------------------------------------------------------
  // Roles

  /** Whether one registered role grants one of the asked permissions. */
  predicate RoleGrants(role: Option<string>, perms: Option<string>)
  {
    role.Some? && (perms.None? || exists j :: 0 <= j < |perms.value| && perms.value[j] in role.value)
  }

  /** `Roles`: a map from role name to its permission characters. */
  class Roles {
    var roles: seq<(string, string)>

    ghost predicate Valid()
      reads this
    {
      DistinctKeys(roles)
    }

    constructor ()
      ensures roles == [] && Valid()
    {
      roles := [];
    }

    /** `rol(name, perms)`. */
    method Rol(name: string, perms: string)
      requires Valid()
      modifies this
      ensures Valid()
      ensures roles == Put(old(roles), name, perms)
    {
      PutKeepsKeysDistinct(roles, name, perms);
      roles := Put(roles, name, perms);
    }

    /**
     * `anyRoleCan(asked, perms)`: some asked role is registered and, unless no
     * permissions are asked for, its permission string holds one of their characters.
     */
    method AnyRoleCan(asked: seq<string>, perms: Option<string>) returns (can: bool)
      ensures can <==> exists i :: 0 <= i < |asked| && RoleGrants(Get(roles, asked[i]), perms)
    {
      var i := 0;
      while i < |asked|
        invariant 0 <= i <= |asked|
        invariant forall k :: 0 <= k < i ==> !RoleGrants(Get(roles, asked[k]), perms)
      {
        var role := Get(roles, asked[i]);
        if role.Some? {
          if perms.None? {
            return true;
          }
          var j := 0;
          while j < |perms.value|
            invariant 0 <= j <= |perms.value|
            invariant forall l :: 0 <= l < j ==> perms.value[l] !in role.value
          {
            if perms.value[j] in role.value {
              return true;
            }
            j := j + 1;
          }
        }
        i := i + 1;
      }
      return false;
    }
  }

  /** A role just registered grants exactly the permissions its string names. */
  lemma RolGrants(roles: seq<(string, string)>, name: string, granted: string, perms: Option<string>)
    requires DistinctKeys(roles)
    ensures RoleGrants(Get(Put(roles, name, granted), name), perms) <==>
      perms.None? || exists j :: 0 <= j < |perms.value| && perms.value[j] in granted
  {
    GetPut(roles, name, granted, name);
  }
}
