/** The persistent key-value state store.

    The SQLite table `state(key PRIMARY KEY, value TEXT, type TEXT)` is a map
    from keys to stored rows; every operation reads or replaces that map.
    Values are typed: the row keeps the value's text and a type tag, and
    reading a row turns the text back into a value of that type. */
module StateManager {
  import opened Wrappers
  import opened Text
  import opened Json

  /** The Python values the store is given or returns. Lists and dicts hold
      JSON-shaped data. A float or a datetime is kept as the text its
      `str`/`isoformat` produces, which its parser reads back to the same
      value; any other Python object is `Unsupported`. */
  datatype Val =
    | VNone
    | VBool(b: bool)
    | VInt(i: int)
    | VStr(s: string)
    | VList(items: seq<Value>)
    | VDict(members: seq<Member>)
    | VFloat(floatText: string)
    | VDatetime(isoText: string)
    | Unsupported(typeName: string)

  /** One row of the table: the value text and its type tag. */
  datatype Row = Row(text: string, typeName: string)

  type Store = map<string, Row>

  datatype StateError =
    | UnsupportedType(typeName: string)
    | UnknownType(typeName: string)
    | BadText(typeName: string)

  // ---------------------------------------------------------------------
  // _serialize_value / _deserialize_value
  // ---------------------------------------------------------------------

  /** Python's `str(b)` for a bool. */
  function BoolText(b: bool): string {
    if b then "True" else "False"
  }

  /** `_serialize_value`: bool is tested before int. */
  function Serialize(v: Val): (r: Result<Row, StateError>)
    ensures r.Err? <==> v.Unsupported?
    ensures v.VBool? ==> r == Ok(Row(BoolText(v.b), "bool"))
  {
    match v
    case VNone => Ok(Row("null", "none"))
    case VBool(b) => Ok(Row(BoolText(b), "bool"))
    case VInt(i) => Ok(Row(IntToString(i), "int"))
    case VFloat(t) => Ok(Row(t, "float"))
    case VStr(s) => Ok(Row(s, "str"))
    case VDatetime(t) => Ok(Row(t, "datetime"))
    case VList(xs) => Ok(Row(Encode(JArr(xs)), "json"))
    case VDict(ms) => Ok(Row(Encode(JObj(ms)), "json"))
    case Unsupported(t) => Err(UnsupportedType(t))
  }

  /** Python's `int(text)` on an optional sign followed by decimal digits. */
  function ParseInt(t: string): (r: Option<int>)
    ensures r.Some? ==> t != []
  {
    if t != [] && (t[0] == '-' || t[0] == '+') then
      var d := t[1..];
      var n: int := if d != [] && AllDigits(d) then DigitsValue(d) else 0;
      if d != [] && AllDigits(d) then Some(if t[0] == '-' then -n else n)
      else None
    else if t != [] && AllDigits(t) then Some(DigitsValue(t))
    else None
  }

  /** `int` reads back what `str` writes. */
  lemma ParseIntOfIntToString(i: int)
    ensures ParseInt(IntToString(i)) == Some(i)
  {
    if i < 0 {
      var t := "-" + NatToString(-i);
      assert t[1..] == NatToString(-i);
      DigitsValueOfNatToString(-i);
    } else {
      DigitsValueOfNatToString(i);
    }
  }

  /** What `json.loads` gives for a decoded document. */
  function FromJson(j: Value): (v: Val)
    ensures !v.Unsupported? && !v.VFloat? && !v.VDatetime?
  {
    match j
    case JNull => VNone
    case JBool(b) => VBool(b)
    case JInt(i) => VInt(i)
    case JStr(s) => VStr(s)
    case JArr(xs) => VList(xs)
    case JObj(ms) => VDict(ms)
  }

  /** `_deserialize_value`: the type tag picks the reader. A bool row is true
      exactly when its text is `True`. */
  function Deserialize(row: Row): (r: Result<Val, StateError>)
    ensures row.typeName == "bool" ==> r == Ok(VBool(row.text == "True"))
    ensures row.typeName == "str" ==> r == Ok(VStr(row.text))
    ensures row.typeName == "none" ==> r == Ok(VNone)
    ensures r.Err? ==> row.typeName in {"int", "json"} || r.error == UnknownType(row.typeName)
    ensures r.Ok? ==> !r.value.Unsupported?
  {
    match row.typeName
    case "none" => Ok(VNone)
    case "bool" => Ok(VBool(row.text == "True"))
    case "int" =>
      (match ParseInt(row.text)
       case None => Err(BadText("int"))
       case Some(i) => Ok(VInt(i)))
    case "float" => Ok(VFloat(row.text))
    case "str" => Ok(VStr(row.text))
    case "datetime" => Ok(VDatetime(row.text))
    case "json" =>
      (match Decode(row.text)
       case None => Err(BadText("json"))
       case Some(j) => Ok(FromJson(j)))
    case _ => Err(UnknownType(row.typeName))
  }

  /** Every supported value reads back as itself. */
  lemma DeserializeSerialize(v: Val)
    requires !v.Unsupported?
    ensures Serialize(v).Ok? && Deserialize(Serialize(v).value) == Ok(v)
  {
    match v {
      case VNone =>
      case VBool(b) =>
      case VInt(i) => IntRoundTrip(i);
      case VFloat(t) => TextRoundTrip(t, "float");
      case VStr(t) =>
      case VDatetime(t) => TextRoundTrip(t, "datetime");
      case VList(xs) => JsonRoundTrip(JArr(xs));
      case VDict(ms) => JsonRoundTrip(JObj(ms));
    }
  }

  lemma IntRoundTrip(i: int)
    ensures Deserialize(Row(IntToString(i), "int")) == Ok(VInt(i))
  {
    ParseIntOfIntToString(i);
  }

  lemma TextRoundTrip(t: string, typeName: string)
    requires typeName == "float" || typeName == "datetime"
    ensures Deserialize(Row(t, typeName)) == Ok(if typeName == "float" then VFloat(t) else VDatetime(t))
  {
  }

  lemma JsonRoundTrip(j: Value)
    requires j.JArr? || j.JObj?
    ensures Deserialize(Row(Encode(j), "json")) == Ok(FromJson(j))
  {
    DecodeEncode(j);
  }

  // ---------------------------------------------------------------------
  // The store operations
  // ---------------------------------------------------------------------

  /** `get(key, default)`. */
  function Get(st: Store, key: string, default: Val): (r: Result<Val, StateError>)
    ensures key !in st ==> r == Ok(default)
    ensures key in st ==> r == Deserialize(st[key])
  {
    if key in st then Deserialize(st[key]) else Ok(default)
  }

  /** `set(key, value)`: serialisation happens before the write, so an
      unsupported value leaves the table as it was. */
  function Set(st: Store, key: string, v: Val): (r: Result<Store, StateError>)
    ensures r.Err? <==> v.Unsupported?
    ensures r.Ok? ==> r.value.Keys == st.Keys + {key}
    ensures r.Ok? ==> forall k :: k in st && k != key ==> r.value[k] == st[k]
  {
    var row :- Serialize(v);
    Ok(st[key := row])
  }

  /** `delete(key)`. */
  function Delete(st: Store, key: string): (r: Store)
    ensures r.Keys == st.Keys - {key}
    ensures forall k :: k in r ==> r[k] == st[k]
  {
    st - {key}
  }

  /** `exists(key)`. */
  predicate Exists(st: Store, key: string) {
    key in st
  }

  /** Rows that read back without error; every row `Set` writes is one. */
  predicate Readable(st: Store) {
    forall k :: k in st ==> Deserialize(st[k]).Ok?
  }

  /** `get_all()`: every stored pair, or the failure of an unreadable row. */
  function GetAll(st: Store): (r: Result<map<string, Val>, StateError>)
    ensures r.Ok? <==> Readable(st)
    ensures r.Ok? ==> (r.value.Keys == st.Keys
      && forall k :: k in st ==> Get(st, k, VNone) == Ok(r.value[k]))
  {
    if Readable(st) then Ok(map k | k in st :: Deserialize(st[k]).value)
    else Err(BadText("row"))
  }

  /** `clear()`. */
  function Clear(st: Store): (r: Store)
    ensures r.Keys == {}
  {
    map[]
  }

  /** The pattern `LIKE` tests in SQLite: `_` matches one character, `%` any
      run of characters, and ASCII letters match regardless of case. */
  predicate Like(s: string, p: string)
    decreases |s| + |p|
  {
    if p == [] then s == []
    else if p[0] == '%' then Like(s, p[1..]) || (s != [] && Like(s[1..], p))
    else s != [] && (p[0] == '_' || LowerChar(s[0]) == LowerChar(p[0])) && Like(s[1..], p[1..])
  }

  /** `get_keys(prefix)`: every key when no prefix (or an empty one) is
      given, otherwise the keys matching `prefix%`. */
  function GetKeys(st: Store, prefix: Option<string>): (r: set<string>)
    ensures r <= st.Keys
    ensures prefix.None? || prefix == Some([]) ==> r == st.Keys
    ensures prefix.Some? && prefix.value != [] ==>
      forall k :: k in st ==> (k in r <==> Like(k, prefix.value + "%"))
  {
    if prefix.Some? && prefix.value != [] then set k | k in st && Like(k, prefix.value + "%")
    else st.Keys
  }

  // ---------------------------------------------------------------------
  // Properties of the store
  // ---------------------------------------------------------------------

  /** A value set is the value got. */
  lemma SetThenGet(st: Store, key: string, v: Val, default: Val)
    requires !v.Unsupported?
    ensures Set(st, key, v).Ok? && Get(Set(st, key, v).value, key, default) == Ok(v)
  {
    DeserializeSerialize(v);
  }

  /** After a successful `set` the key exists, and no other key's existence
      changes. */
  lemma SetThenExists(st: Store, key: string, v: Val, other: string)
    requires Set(st, key, v).Ok?
    ensures Exists(Set(st, key, v).value, key)
    ensures other != key ==> (Exists(Set(st, key, v).value, other) <==> Exists(st, other))
  {
  }

  /** Setting one key leaves every other key's value as it was. */
  lemma SetOtherKeys(st: Store, key: string, v: Val, other: string, default: Val)
    requires Set(st, key, v).Ok? && other != key
    ensures Get(Set(st, key, v).value, other, default) == Get(st, other, default)
  {
  }

  /** Setting keeps every row readable. */
  lemma SetReadable(st: Store, key: string, v: Val)
    requires Readable(st) && Set(st, key, v).Ok?
    ensures Readable(Set(st, key, v).value)
  {
    DeserializeSerialize(v);
  }

  /** A deleted key reads as the default, and no longer exists. */
  lemma DeleteThenGet(st: Store, key: string, default: Val)
    ensures Get(Delete(st, key), key, default) == Ok(default)
    ensures !Exists(Delete(st, key), key)
  {
  }

  /** Deleting an absent key changes nothing. */
  lemma DeleteAbsent(st: Store, key: string)
    requires !Exists(st, key)
    ensures Delete(st, key) == st
  {
  }

  /** After `clear`, `get_all` is empty and every key reads as its default. */
  lemma ClearEmpties(st: Store, key: string, default: Val)
    ensures GetAll(Clear(st)) == Ok(map[])
    ensures Get(Clear(st), key, default) == Ok(default)
  {
  }

  /** A store written only by `set` has all its pairs in `get_all`. */
  lemma GetAllAfterSet(st: Store, key: string, v: Val)
    requires Readable(st) && !v.Unsupported?
    ensures GetAll(Set(st, key, v).value).Ok?
    ensures GetAll(Set(st, key, v).value).value[key] == v
  {
    SetReadable(st, key, v);
    SetThenGet(st, key, v, VNone);
  }

  /** `%` matches every string. */
  lemma {:induction false} LikeAny(s: string)
    ensures Like(s, "%")
  {
    if s != [] {
      LikeAny(s[1..]);
    }
  }

  /** A pattern without wildcards followed by `%` is an ASCII
      case-insensitive prefix test. */
  lemma {:induction false} LikePrefix(s: string, p: string)
    requires '%' !in p && '_' !in p
    ensures Like(s, p + "%") <==> |p| <= |s| && ToLower(s[..|p|]) == ToLower(p)
  {
    if p == [] {
      assert p + "%" == "%";
      LikeAny(s);
    } else {
      assert (p + "%")[0] == p[0] && (p + "%")[1..] == p[1..] + "%";
      assert p[0] != '%' && p[0] != '_' by { assert p[0] in p; }
      if s != [] {
        LikePrefix(s[1..], p[1..]);
        if |p| <= |s| {
          var a, b := ToLower(s[..|p|]), ToLower(p);
          assert s[1..][..|p| - 1] == s[..|p|][1..];
          assert a == [LowerChar(s[0])] + ToLower(s[1..][..|p| - 1]);
          assert b == [LowerChar(p[0])] + ToLower(p[1..]);
          if a == b {
            assert a[0] == b[0] && a[1..] == b[1..];
          }
        }
      }
    }
  }

  /** So for such a prefix, a key that starts with it is always returned. */
  lemma GetKeysStartsWith(st: Store, prefix: string, k: string)
    requires prefix != [] && '%' !in prefix && '_' !in prefix
    requires k in st && StartsWith(k, prefix)
    ensures k in GetKeys(st, Some(prefix))
  {
    LikePrefix(k, prefix);
  }

  /** `_` in the prefix is a wildcard: it matches any one character. */
  lemma LikeUnderscore(c: char, rest: string)
    ensures Like([c] + rest, "_%")
  {
    assert ([c] + rest)[1..] == rest;
    assert "_%"[1..] == "%";
    LikeAny(rest);
  }
}
