/**
 * The claims record `SurrealJWTClaims<T>` (src/types.rs) and its derived
 * serde mapping to a JSON value.
 *
 * Five fields are the registered claims of section 4.1 of RFC 7519 (`iat`,
 * `nbf`, `exp`, `iss`, `jti`) and keep their names on the wire; the four
 * SurrealDB fields `ns`, `db`, `ac`, `id` are renamed to the upper-case keys
 * `NS`, `DB`, `AC`, `ID`. The access claims `ac` are of a caller-chosen type
 * `T` that the record never looks into: it is encoded and decoded only by
 * the functions the caller supplies for `T`.
 *
 * Decoding follows the derived deserializer: an object is read member by
 * member, unknown keys are skipped, a known key seen twice is an error, and
 * every field must be present and of the right shape; an array is read as
 * the nine fields in declaration order. Nothing relates one field to another.
 */
module Types {
  import opened Wrappers
  import opened Json

  /** Rust's `u64`: seconds since the Unix epoch. */
  type u64 = n: int | 0 <= n < 0x1_0000_0000_0000_0000

  datatype Claims<T> = Claims(
    iat: u64,     // issued at
    nbf: u64,     // not before
    exp: u64,     // expiration time
    iss: string,  // issuer
    jti: string,  // token id
    ns: string,   // SurrealDB namespace
    db: string,   // SurrealDB database
    ac: T,        // access claims, opaque to the record
    id: string    // subject identifier
  )

  /** The nine fields, by name. */
  datatype Field = Iat | Nbf | Exp | Iss | Jti | Ns | Db | Ac | Id

  /** The fields in declaration order, the order of the sequence form and of serialization. */
  const Fields: seq<Field> := [Iat, Nbf, Exp, Iss, Jti, Ns, Db, Ac, Id]

  /** The field list names every field once. */
  lemma FieldListed(f: Field)
    ensures f in Fields
  {
    match f
    case Iat => case Nbf => case Exp => case Iss => case Jti =>
    case Ns => case Db => case Ac => case Id =>
  }

  /**
   * The JSON key of each field: the five registered claims keep their
   * lower-case names, the four SurrealDB fields are renamed to upper case.
   */
  function WireKey(f: Field): (k: string)
    ensures |k| > 0 && ('A' <= k[0] <= 'Z' <==> f in {Ns, Db, Ac, Id})
  {
    match f
    case Iat => "iat"
    case Nbf => "nbf"
    case Exp => "exp"
    case Iss => "iss"
    case Jti => "jti"
    case Ns => "NS"
    case Db => "DB"
    case Ac => "AC"
    case Id => "ID"
  }

  /** Which field a JSON key names, compared exactly (case-sensitively); `None` for a key the record ignores. */
  function FieldOfKey(key: string): (r: Option<Field>)
    ensures r.Some? ==> WireKey(r.value) == key
    ensures r.None? ==> forall f: Field :: WireKey(f) != key
  {
    if key == "iat" then Some(Iat)
    else if key == "nbf" then Some(Nbf)
    else if key == "exp" then Some(Exp)
    else if key == "iss" then Some(Iss)
    else if key == "jti" then Some(Jti)
    else if key == "NS" then Some(Ns)
    else if key == "DB" then Some(Db)
    else if key == "AC" then Some(Ac)
    else if key == "ID" then Some(Id)
    else None
  }

  /** FieldOfKey inverts WireKey: every field is found again under its own key. */
  lemma FieldOfKeyWireKey(f: Field)
    ensures FieldOfKey(WireKey(f)) == Some(f)
  {
    match f
    case Iat => case Nbf => case Exp => case Iss => case Jti =>
    case Ns => case Db => case Ac => case Id =>
  }

  /** The mapping is one-to-one: no two fields share a wire key. */
  lemma WireKeyInjective(f: Field, g: Field)
    requires WireKey(f) == WireKey(g)
    ensures f == g
  {
    FieldOfKeyWireKey(f);
    FieldOfKeyWireKey(g);
  }

  /** Keys that differ only in case from a field's key name no field. */
  lemma KeysAreCaseSensitive()
    ensures FieldOfKey("ns") == None && FieldOfKey("Db") == None && FieldOfKey("IAT") == None
  {
  }

  // ---------------------------------------------------------------------------
  // Shapes of the individual fields

  /** A JSON number that fits a `u64`; negative and too large numbers are refused. */
  function AsU64(v: Value): (r: Option<u64>)
    ensures r.Some? <==> v.Number? && 0 <= v.n < 0x1_0000_0000_0000_0000
    ensures r.Some? ==> r.value == v.n
  {
    match v
    case Number(n) => if 0 <= n < 0x1_0000_0000_0000_0000 then Some(n) else None
    case _ => None
  }

  function AsString(v: Value): (r: Option<string>)
    ensures r.Some? <==> v.String?
    ensures r.Some? ==> r.value == v.s
  {
    match v
    case String(s) => Some(s)
    case _ => None
  }

  /** Whether `v` has the shape that field `f` (other than `ac`) requires. */
  predicate FitsField(f: Field, v: Value)
    requires f != Ac
  {
    if f in {Iat, Nbf, Exp} then AsU64(v).Some? else AsString(v).Some?
  }

  // ---------------------------------------------------------------------------
  // Decoding (the derived `Deserialize`)

  /**
   * Visits the members of an object in order, keeping the value of each
   * field's key. Keys that name no field are skipped; a field's key seen a
   * second time is an error.
   */
  function CollectMembers(members: seq<(string, Value)>, seen: map<Field, Value>): (r: Option<map<Field, Value>>)
    ensures r.Some? ==> forall f | f in seen :: f in r.value && r.value[f] == seen[f]
    decreases |members|
  {
    if |members| == 0 then Some(seen)
    else
      match FieldOfKey(members[0].0)
      case None => CollectMembers(members[1..], seen)
      case Some(f) => if f in seen then None else CollectMembers(members[1..], seen[f := members[0].1])
  }

  /** The value collected for a field with a fixed shape; a missing field is an error. */
  function Required<X>(slots: map<Field, Value>, f: Field, shape: Value -> Option<X>): Option<X> {
    if f in slots then shape(slots[f]) else None
  }

  /**
   * The record from the collected members. `decodeAc` is `T`'s own decoder:
   * it receives the `AC` value, or `None` when the key is absent (a `T` such
   * as an optional type may accept that; any other `T` refuses it).
   */
  function FromSlots<T>(slots: map<Field, Value>, decodeAc: Option<Value> -> Option<T>): (r: Option<Claims<T>>)
    ensures r.Some? ==> forall f | f != Ac :: f in slots && slots[f] == PlainFieldValue(r.value, f)
    ensures r.Some? ==> decodeAc(if Ac in slots then Some(slots[Ac]) else None) == Some(r.value.ac)
  {
    var iat :- Required(slots, Iat, AsU64);
    var nbf :- Required(slots, Nbf, AsU64);
    var exp :- Required(slots, Exp, AsU64);
    var iss :- Required(slots, Iss, AsString);
    var jti :- Required(slots, Jti, AsString);
    var ns :- Required(slots, Ns, AsString);
    var db :- Required(slots, Db, AsString);
    var ac :- decodeAc(if Ac in slots then Some(slots[Ac]) else None);
    var id :- Required(slots, Id, AsString);
    var c := Claims(iat, nbf, exp, iss, jti, ns, db, ac, id);
    PlainFieldsAgree(slots, c);
    Some(c)
  }

  /** The sequence form: exactly nine elements, in declaration order. */
  function FromSequence<T>(items: seq<Value>, decodeAc: Option<Value> -> Option<T>): (r: Option<Claims<T>>)
    ensures r.Some? ==> |items| == 9 && items == SequenceForm(r.value, items[7])
    ensures r.Some? ==> decodeAc(Some(items[7])) == Some(r.value.ac)
  {
    if |items| != 9 then None
    else
      var iat :- AsU64(items[0]);
      var nbf :- AsU64(items[1]);
      var exp :- AsU64(items[2]);
      var iss :- AsString(items[3]);
      var jti :- AsString(items[4]);
      var ns :- AsString(items[5]);
      var db :- AsString(items[6]);
      var ac :- decodeAc(Some(items[7]));
      var id :- AsString(items[8]);
      Some(Claims(iat, nbf, exp, iss, jti, ns, db, ac, id))
  }

  /** Decodes the record from a JSON value: an object or a nine-element array, nothing else. */
  function FromJson<T>(v: Value, decodeAc: Option<Value> -> Option<T>): (r: Option<Claims<T>>)
    ensures r.Some? ==> v.Object? || (v.Array? && |v.items| == 9)
  {
    match v
    case Object(members) =>
      var slots :- CollectMembers(members, map[]);
      FromSlots(slots, decodeAc)
    case Array(items) => FromSequence(items, decodeAc)
    case _ => None
  }

  // ---------------------------------------------------------------------------
  // Encoding (the derived `Serialize`)

  /** The JSON value of a field other than `ac`: a number for a timestamp, a string otherwise. */
  function PlainFieldValue<T>(c: Claims<T>, f: Field): Value
    requires f != Ac
  {
    match f
    case Iat => Number(c.iat)
    case Nbf => Number(c.nbf)
    case Exp => Number(c.exp)
    case Iss => String(c.iss)
    case Jti => String(c.jti)
    case Ns => String(c.ns)
    case Db => String(c.db)
    case Id => String(c.id)
  }

  /** The JSON value of one field; `ac` is whatever `T` encodes to. */
  function FieldValue<T>(c: Claims<T>, f: Field, encodeAc: T -> Value): Value {
    if f == Ac then encodeAc(c.ac) else PlainFieldValue(c, f)
  }

  /** The sequence form of a record: the nine field values in declaration order, `ac` given as `acValue`. */
  function SequenceForm<T>(c: Claims<T>, acValue: Value): seq<Value> {
    [Number(c.iat), Number(c.nbf), Number(c.exp), String(c.iss), String(c.jti), String(c.ns), String(c.db), acValue, String(c.id)]
  }

  /** One member per field of `fs`, in that order, under the field's wire key. */
  function FieldMembers(fs: seq<Field>, value: Field -> Value): (m: seq<(string, Value)>)
    ensures |m| == |fs|
    ensures forall i | 0 <= i < |fs| :: m[i] == (WireKey(fs[i]), value(fs[i]))
    decreases |fs|
  {
    if |fs| == 0 then [] else [(WireKey(fs[0]), value(fs[0]))] + FieldMembers(fs[1..], value)
  }

  /** The record as a JSON object: one member per field, in declaration order. */
  function ToJson<T>(c: Claims<T>, encodeAc: T -> Value): (r: Value)
    ensures r.Object? && CarriesRecord(r.members, c, encodeAc)
  {
    FieldMembersCarryRecord(c, encodeAc);
    Object(FieldMembers(Fields, Valuation(c, encodeAc)))
  }

  /** Each field's JSON value in `c`, as a function of the field. */
  function Valuation<T>(c: Claims<T>, encodeAc: T -> Value): Field -> Value {
    f => FieldValue(c, f, encodeAc)
  }

  /** No key that names a field appears twice among the members. */
  predicate FieldKeysOnce(members: seq<(string, Value)>) {
    forall i, j | 0 <= i < j < |members| && FieldOfKey(members[i].0).Some? :: members[j].0 != members[i].0
  }

  /** Some member has key `key` and value `v`. */
  predicate HasMember(members: seq<(string, Value)>, key: string, v: Value) {
    exists i | 0 <= i < |members| :: members[i] == (key, v)
  }

  /**
   * The members of an object that carries the record `c`: the key of every
   * field appears exactly once, with that field's value in `c`. The members
   * may come in any order, and other keys may appear among them.
   */
  predicate CarriesRecord<T>(members: seq<(string, Value)>, c: Claims<T>, encodeAc: T -> Value) {
    FieldKeysOnce(members) && forall f: Field :: HasMember(members, WireKey(f), FieldValue(c, f, encodeAc))
  }

  // ---------------------------------------------------------------------------
  // Properties

  /**
   * Each member whose key names a field is recorded with its value, and that
   * field had not been seen before.
   */
  lemma {:induction false} CollectedMembers(members: seq<(string, Value)>, seen: map<Field, Value>, slots: map<Field, Value>)
    requires CollectMembers(members, seen) == Some(slots)
    ensures forall i | 0 <= i < |members| && FieldOfKey(members[i].0).Some? ::
      FieldOfKey(members[i].0).value !in seen
      && FieldOfKey(members[i].0).value in slots && slots[FieldOfKey(members[i].0).value] == members[i].1
    decreases |members|
  {
    if |members| > 0 {
      var tail := members[1..];
      var seen' := match FieldOfKey(members[0].0) case None => seen case Some(g) => seen[g := members[0].1];
      CollectedMembers(tail, seen', slots);
      forall i | 0 < i < |members| && FieldOfKey(members[i].0).Some?
        ensures FieldOfKey(members[i].0).value !in seen
        ensures FieldOfKey(members[i].0).value in slots && slots[FieldOfKey(members[i].0).value] == members[i].1
      {
        assert members[i] == tail[i - 1];
      }
    }
  }

  /** Nothing is recorded but the fields seen before and the fields some member names. */
  lemma {:induction false} CollectedOnlyNamed(members: seq<(string, Value)>, seen: map<Field, Value>, slots: map<Field, Value>)
    requires CollectMembers(members, seen) == Some(slots)
    ensures forall f | f in slots :: f in seen || exists i | 0 <= i < |members| :: members[i].0 == WireKey(f)
    decreases |members|
  {
    if |members| > 0 {
      var tail := members[1..];
      var seen' := match FieldOfKey(members[0].0) case None => seen case Some(g) => seen[g := members[0].1];
      CollectedOnlyNamed(tail, seen', slots);
      forall f | f in slots && f !in seen
        ensures exists i | 0 <= i < |members| :: members[i].0 == WireKey(f)
      {
        if f in seen' {
          assert members[0].0 == WireKey(f);
        } else {
          var j :| 0 <= j < |tail| && tail[j].0 == WireKey(f);
          assert members[j + 1] == tail[j];
        }
      }
    }
  }

  /** Reading succeeds only when no two members name the same field. */
  lemma {:induction false} CollectedDistinct(members: seq<(string, Value)>, seen: map<Field, Value>, slots: map<Field, Value>)
    requires CollectMembers(members, seen) == Some(slots)
    ensures forall i, j | 0 <= i < j < |members| && FieldOfKey(members[i].0).Some? ::
      FieldOfKey(members[j].0) != FieldOfKey(members[i].0)
    decreases |members|
  {
    if |members| > 0 {
      var tail := members[1..];
      var seen' := match FieldOfKey(members[0].0) case None => seen case Some(g) => seen[g := members[0].1];
      CollectedDistinct(tail, seen', slots);
      CollectedMembers(tail, seen', slots);
      forall i, j | 0 <= i < j < |members| && FieldOfKey(members[i].0).Some?
        ensures FieldOfKey(members[j].0) != FieldOfKey(members[i].0)
      {
        assert members[j] == tail[j - 1];
        if i > 0 {
          assert members[i] == tail[i - 1];
        }
      }
    }
  }

  /**
   * No field has a default: an object lacking the key of any field is
   * refused. For `ac` this holds whenever `T` itself refuses an absent value.
   */
  lemma MissingFieldRejected<T>(members: seq<(string, Value)>, f: Field, decodeAc: Option<Value> -> Option<T>)
    requires forall i | 0 <= i < |members| :: members[i].0 != WireKey(f)
    requires f == Ac ==> decodeAc(None) == None
    ensures FromJson(Object(members), decodeAc) == None
  {
    var collected := CollectMembers(members, map[]);
    if collected.Some? {
      CollectedOnlyNamed(members, map[], collected.value);
      RequiredMissingRejected(collected.value, f, decodeAc);
    }
  }

  /** A field absent from the collected members stops FromSlots (for `ac`, when `T` refuses absence). */
  lemma RequiredMissingRejected<T>(slots: map<Field, Value>, f: Field, decodeAc: Option<Value> -> Option<T>)
    requires f !in slots && (f == Ac ==> decodeAc(None) == None)
    ensures FromSlots(slots, decodeAc) == None
  {
    match f
    case Iat => assert Required(slots, Iat, AsU64) == None;
    case Nbf => assert Required(slots, Nbf, AsU64) == None;
    case Exp => assert Required(slots, Exp, AsU64) == None;
    case Iss => assert Required(slots, Iss, AsString) == None;
    case Jti => assert Required(slots, Jti, AsString) == None;
    case Ns => assert Required(slots, Ns, AsString) == None;
    case Db => assert Required(slots, Db, AsString) == None;
    case Ac =>
    case Id => assert Required(slots, Id, AsString) == None;
  }

  /**
   * A field present with the wrong shape (a negative or too large timestamp,
   * a non-number timestamp, a non-string text field) makes the whole object
   * be refused, wherever the member stands.
   */
  lemma WrongShapeRejected<T>(members: seq<(string, Value)>, i: nat, f: Field, decodeAc: Option<Value> -> Option<T>)
    requires i < |members| && f != Ac
    requires members[i].0 == WireKey(f) && !FitsField(f, members[i].1)
    ensures FromJson(Object(members), decodeAc) == None
  {
    var collected := CollectMembers(members, map[]);
    if collected.Some? {
      FieldOfKeyWireKey(f);
      CollectedMembers(members, map[], collected.value);
      RequiredShapeRejected(collected.value, f, decodeAc);
    }
  }

  /** A collected field of the wrong shape stops FromSlots. */
  lemma RequiredShapeRejected<T>(slots: map<Field, Value>, f: Field, decodeAc: Option<Value> -> Option<T>)
    requires f != Ac && f in slots && !FitsField(f, slots[f])
    ensures FromSlots(slots, decodeAc) == None
  {
    match f
    case Iat => assert Required(slots, Iat, AsU64) == None;
    case Nbf => assert Required(slots, Nbf, AsU64) == None;
    case Exp => assert Required(slots, Exp, AsU64) == None;
    case Iss => assert Required(slots, Iss, AsString) == None;
    case Jti => assert Required(slots, Jti, AsString) == None;
    case Ns => assert Required(slots, Ns, AsString) == None;
    case Db => assert Required(slots, Db, AsString) == None;
    case Id => assert Required(slots, Id, AsString) == None;
  }

  /** A key that names a field may appear only once. */
  lemma DuplicateFieldRejected<T>(members: seq<(string, Value)>, i: nat, j: nat, f: Field, decodeAc: Option<Value> -> Option<T>)
    requires i < j < |members|
    requires members[i].0 == WireKey(f) && members[j].0 == WireKey(f)
    ensures FromJson(Object(members), decodeAc) == None
  {
    var collected := CollectMembers(members, map[]);
    if collected.Some? {
      FieldOfKeyWireKey(f);
      CollectedDistinct(members, map[], collected.value);
      assert false;
    }
  }

  /** Every field collected with the value it has in `c` gives back `c`. */
  lemma FromSlotsComplete<T>(slots: map<Field, Value>, c: Claims<T>, encodeAc: T -> Value, decodeAc: Option<Value> -> Option<T>)
    requires forall f: Field :: f in slots && slots[f] == FieldValue(c, f, encodeAc)
    requires decodeAc(Some(encodeAc(c.ac))) == Some(c.ac)
    ensures FromSlots(slots, decodeAc) == Some(c)
  {
    assert Required(slots, Iat, AsU64) == Some(c.iat);
    assert Required(slots, Nbf, AsU64) == Some(c.nbf);
    assert Required(slots, Exp, AsU64) == Some(c.exp);
    assert Required(slots, Iss, AsString) == Some(c.iss);
    assert Required(slots, Jti, AsString) == Some(c.jti);
    assert Required(slots, Ns, AsString) == Some(c.ns);
    assert Required(slots, Db, AsString) == Some(c.db);
    assert Required(slots, Id, AsString) == Some(c.id);
  }

  /** The values FromSlots read are the record's field values. */
  lemma PlainFieldsAgree<T>(slots: map<Field, Value>, c: Claims<T>)
    requires Iat in slots && slots[Iat] == Number(c.iat) && Nbf in slots && slots[Nbf] == Number(c.nbf)
    requires Exp in slots && slots[Exp] == Number(c.exp) && Iss in slots && slots[Iss] == String(c.iss)
    requires Jti in slots && slots[Jti] == String(c.jti) && Ns in slots && slots[Ns] == String(c.ns)
    requires Db in slots && slots[Db] == String(c.db) && Id in slots && slots[Id] == String(c.id)
    ensures forall f | f != Ac :: f in slots && slots[f] == PlainFieldValue(c, f)
  {
    forall f | f != Ac
      ensures f in slots && slots[f] == PlainFieldValue(c, f)
    {
      match f
      case Iat => case Nbf => case Exp => case Iss => case Jti =>
      case Ns => case Db => case Id =>
    }
  }

  lemma FieldsDistinct()
    ensures forall i, j | 0 <= i < j < |Fields| :: Fields[i] != Fields[j]
  {
  }

  /** Serialization writes each field's key once, with the field's value. */
  lemma FieldMembersCarryRecord<T>(c: Claims<T>, encodeAc: T -> Value)
    ensures CarriesRecord(FieldMembers(Fields, Valuation(c, encodeAc)), c, encodeAc)
  {
    var m := FieldMembers(Fields, Valuation(c, encodeAc));
    FieldMembersKeysOnce(Valuation(c, encodeAc), m);
    forall f: Field
      ensures HasMember(m, WireKey(f), FieldValue(c, f, encodeAc))
    {
      var k := FieldMembersCover(c, encodeAc, f);
    }
  }

  /** Every field's key is among the serialized members, with the field's value. */
  lemma FieldMembersCover<T>(c: Claims<T>, encodeAc: T -> Value, f: Field) returns (k: nat)
    ensures k < |Fields| && FieldMembers(Fields, Valuation(c, encodeAc))[k] == (WireKey(f), FieldValue(c, f, encodeAc))
  {
    FieldListed(f);
    k :| 0 <= k < |Fields| && Fields[k] == f;
  }

  /** No field's key appears twice among the serialized members. */
  lemma FieldMembersKeysOnce(value: Field -> Value, m: seq<(string, Value)>)
    requires m == FieldMembers(Fields, value)
    ensures FieldKeysOnce(m)
  {
    FieldsDistinct();
    forall i, j | 0 <= i < j < |m| && FieldOfKey(m[i].0).Some?
      ensures m[j].0 != m[i].0
    {
      if m[j].0 == m[i].0 {
        WireKeyInjective(Fields[i], Fields[j]);
      }
    }
  }

  /** Reading an object succeeds when no key that names a field repeats and no such field was seen before. */
  lemma {:induction false} CollectSucceeds(members: seq<(string, Value)>, seen: map<Field, Value>)
    requires FieldKeysOnce(members)
    requires forall i | 0 <= i < |members| && FieldOfKey(members[i].0).Some? :: FieldOfKey(members[i].0).value !in seen
    ensures CollectMembers(members, seen).Some?
    decreases |members|
  {
    if |members| > 0 {
      var tail := members[1..];
      var seen' := match FieldOfKey(members[0].0) case None => seen case Some(g) => seen[g := members[0].1];
      forall i, j | 0 <= i < j < |tail| && FieldOfKey(tail[i].0).Some?
        ensures tail[j].0 != tail[i].0
      {
        assert tail[i] == members[i + 1] && tail[j] == members[j + 1];
      }
      forall i | 0 <= i < |tail| && FieldOfKey(tail[i].0).Some?
        ensures FieldOfKey(tail[i].0).value !in seen'
      {
        assert tail[i] == members[i + 1];
      }
      CollectSucceeds(tail, seen');
    }
  }

  /**
   * Any object that carries the record decodes to it, whatever the order of
   * its members and whatever other keys it holds (RFC 7519's `sub` or `aud`,
   * say), whenever `T`'s own codec round-trips its value.
   */
  lemma FromJsonCarried<T>(members: seq<(string, Value)>, c: Claims<T>, encodeAc: T -> Value, decodeAc: Option<Value> -> Option<T>)
    requires CarriesRecord(members, c, encodeAc)
    requires decodeAc(Some(encodeAc(c.ac))) == Some(c.ac)
    ensures FromJson(Object(members), decodeAc) == Some(c)
  {
    CollectSucceeds(members, map[]);
    var slots := CollectMembers(members, map[]).value;
    CollectedMembers(members, map[], slots);
    forall f: Field
      ensures f in slots && slots[f] == FieldValue(c, f, encodeAc)
    {
      assert HasMember(members, WireKey(f), FieldValue(c, f, encodeAc));
      var i :| 0 <= i < |members| && members[i] == (WireKey(f), FieldValue(c, f, encodeAc));
      FieldOfKeyWireKey(f);
    }
    FromSlotsComplete(slots, c, encodeAc, decodeAc);
  }

  /**
   * Conversely, an object decodes to `c` only when no key that names a field
   * repeats and every field other than `ac` has a member with its value in `c`.
   */
  lemma FromJsonObjectSound<T>(members: seq<(string, Value)>, c: Claims<T>, decodeAc: Option<Value> -> Option<T>)
    requires FromJson(Object(members), decodeAc) == Some(c)
    ensures FieldKeysOnce(members)
    ensures forall f | f != Ac :: HasMember(members, WireKey(f), PlainFieldValue(c, f))
  {
    var slots := CollectMembers(members, map[]).value;
    CollectedOnlyNamed(members, map[], slots);
    CollectedMembers(members, map[], slots);
    CollectedDistinct(members, map[], slots);
    forall f | f != Ac
      ensures HasMember(members, WireKey(f), PlainFieldValue(c, f))
    {
      var i :| 0 <= i < |members| && members[i].0 == WireKey(f);
      FieldOfKeyWireKey(f);
      assert members[i] == (WireKey(f), PlainFieldValue(c, f));
    }
  }

  /**
   * Serializing a record and deserializing the result gives back the same
   * record, whenever `T`'s own codec round-trips its value.
   */
  lemma FromJsonToJson<T>(c: Claims<T>, encodeAc: T -> Value, decodeAc: Option<Value> -> Option<T>)
    requires decodeAc(Some(encodeAc(c.ac))) == Some(c.ac)
    ensures FromJson(ToJson(c, encodeAc), decodeAc) == Some(c)
  {
    FromJsonCarried(ToJson(c, encodeAc).members, c, encodeAc, decodeAc);
  }

  /**
   * The sequence form: the values of the nine fields, in declaration order,
   * are read as the record, whenever `T`'s own codec round-trips its value.
   */
  lemma FromJsonSequence<T>(c: Claims<T>, encodeAc: T -> Value, decodeAc: Option<Value> -> Option<T>)
    requires decodeAc(Some(encodeAc(c.ac))) == Some(c.ac)
    ensures FromJson(Array(SequenceForm(c, encodeAc(c.ac))), decodeAc) == Some(c)
  {
  }

  /**
   * No cross-field invariant: a record whose validity window is inverted
   * (`nbf` after `exp`, issued after it expired) decodes like any other.
   */
  lemma NoCrossFieldCheck<T>(ac: T, encodeAc: T -> Value, decodeAc: Option<Value> -> Option<T>)
    requires decodeAc(Some(encodeAc(ac))) == Some(ac)
    ensures var c := Claims(300, 200, 100, "issuer", "jti", "ns", "db", ac, "subject");
      c.nbf > c.exp && FromJson(ToJson(c, encodeAc), decodeAc) == Some(c)
  {
    FromJsonToJson(Claims(300, 200, 100, "issuer", "jti", "ns", "db", ac, "subject"), encodeAc, decodeAc);
  }

  /**
   * The record never looks into `ac`: two decoders for `T` that both succeed
   * yield records that agree on every other field.
   */
  lemma AccessClaimsAreOpaque<T>(v: Value, decode1: Option<Value> -> Option<T>, decode2: Option<Value> -> Option<T>)
    requires FromJson(v, decode1).Some? && FromJson(v, decode2).Some?
    ensures var c1, c2 := FromJson(v, decode1).value, FromJson(v, decode2).value;
      c1.(ac := c2.ac) == c2
  {
  }
}
