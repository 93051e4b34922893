/**
 * The record-id string codecs of src/lib.rs: `record_id_full` writes a record
 * id as the string `table:key` and reads it back, `record_id_naked` writes
 * only the key.
 *
 * The id grammar of SurrealDB itself is not part of this model. Ids here are
 * simple: a table and a key, each a non-empty run of ASCII letters, digits
 * and `_`, so that neither needs escaping; text is split at its last `:`.
 */
module RecordIds {
  import opened Wrappers
  import opened Json

  datatype RecordId = RecordId(table: string, key: string)

  const Colon: char := ':'

  /** The characters a table name or key may hold without escaping. */
  predicate IsPlainChar(c: char) {
    'A' <= c <= 'Z' || 'a' <= c <= 'z' || '0' <= c <= '9' || c == '_'
  }

  /** A non-empty run of plain characters. */
  predicate IsPlain(s: string) {
    |s| > 0 && forall i | 0 <= i < |s| :: IsPlainChar(s[i])
  }

  /** The ids this model gives a text form: table and key both plain, so neither holds the separator. */
  predicate IsSimple(id: RecordId) {
    IsPlain(id.table) && IsPlain(id.key)
  }

  /** The text form of an id: table, separator, key. For a simple id the separator is the last `:`. */
  function Render(id: RecordId): (s: string)
    ensures IsSimple(id) ==> LastIndexOf(s, Colon) == Some(|id.table|)
  {
    var s := id.table + [Colon] + id.key;
    assert s[|id.table| + 1..] == id.key;
    s
  }

  /** The position of the last occurrence of `c` in `s`, if any. */
  function LastIndexOf(s: string, c: char): (r: Option<nat>)
    ensures r.None? <==> c !in s
    ensures r.Some? ==> r.value < |s| && s[r.value] == c && c !in s[r.value + 1..]
    decreases |s|
  {
    if |s| == 0 then None
    else if s[|s| - 1] == c then Some(|s| - 1)
    else
      var r := LastIndexOf(s[..|s| - 1], c);
      assert s == s[..|s| - 1] + [s[|s| - 1]];
      if r.None? then r
      else
        assert s[r.value + 1..] == s[..|s| - 1][r.value + 1..] + [s[|s| - 1]];
        r
  }

  /** Reads the text form of a simple id; anything else is not an id. */
  function Parse(s: string): (r: Option<RecordId>)
    ensures r.Some? ==> IsSimple(r.value) && Render(r.value) == s
  {
    match LastIndexOf(s, Colon)
    case None => None
    case Some(i) =>
      var id := RecordId(s[..i], s[i + 1..]);
      assert s == s[..i] + [Colon] + s[i + 1..];
      if IsSimple(id) then Some(id) else None
  }

  // ---------------------------------------------------------------------------
  // `record_id_full`

  /** Why reading a full id failed: the value was not a string, or the string was not an id. */
  datatype IdError = NotAString | MalformedRecordId

  /** `record_id_full::serialize`: the id's text form, as a JSON string; it never fails. */
  function SerializeFull(id: RecordId): (v: Value)
    ensures v.String? && Colon in v.s
  {
    assert Render(id)[|id.table|] == Colon;
    String(Render(id))
  }

  /** `record_id_full::deserialize`: a string first (`null` included, anything else is refused), then an id. */
  function DeserializeFull(v: Value): (r: Result<RecordId, IdError>)
    ensures !v.String? <==> r == Err(NotAString)
    ensures r.Ok? ==> IsSimple(r.value) && SerializeFull(r.value) == v
  {
    match v
    case String(s) => Parse(s).ToResult(MalformedRecordId)
    case _ => Err(NotAString)
  }

  // ---------------------------------------------------------------------------
  // `record_id_naked`

  /**
   * `record_id_naked::serialize`: only the key, as a JSON string; it never
   * fails. It is the full form with the table and the separator removed.
   */
  function SerializeNaked(id: RecordId): (v: Value)
    ensures v.String? && SerializeFull(id).s == id.table + [Colon] + v.s
    ensures IsSimple(id) ==> Colon !in v.s
  {
    String(id.key)
  }

  // ---------------------------------------------------------------------------
  // Properties

  /** Splitting at the last separator recovers a simple id from its text form. */
  lemma ParseRender(id: RecordId)
    requires IsSimple(id)
    ensures Parse(Render(id)) == Some(id)
  {
    var s := Render(id);
    var i := |id.table|;
    assert s[i + 1..] == id.key;
    assert s[..i] == id.table;
  }

  /** Writing a simple id in full and reading it back gives the same id. */
  lemma FullRoundTrip(id: RecordId)
    requires IsSimple(id)
    ensures DeserializeFull(SerializeFull(id)) == Ok(id)
  {
    ParseRender(id);
  }

  /**
   * A string is accepted exactly when it is the full form of some simple id,
   * and then of that id only.
   */
  lemma DeserializeFullExactly(s: string, id: RecordId)
    ensures DeserializeFull(String(s)) == Ok(id) <==> IsSimple(id) && Render(id) == s
  {
    if IsSimple(id) && Render(id) == s {
      FullRoundTrip(id);
    }
  }

  /** The naked form keeps the key and drops the table: ids with the same key are written alike. */
  lemma NakedIgnoresTable(a: RecordId, b: RecordId)
    ensures SerializeNaked(a) == SerializeNaked(b) <==> a.key == b.key
  {
  }

  /**
   * No reader can undo the naked form, even on simple ids: `person:john` and
   * `user:john` are both written `"john"`.
   */
  lemma NakedHasNoInverse(read: Value -> Option<RecordId>)
    ensures exists id :: IsSimple(id) && read(SerializeNaked(id)) != Some(id)
  {
    var person, user := RecordId("person", "john"), RecordId("user", "john");
    PlainNames();
    assert person.table != user.table;
    NakedIgnoresTable(person, user);
    if read(SerializeNaked(person)) != Some(person) {
      assert IsSimple(person);
    } else {
      assert IsSimple(user);
    }
  }

  lemma PlainNames()
    ensures IsPlain("person") && IsPlain("user") && IsPlain("john")
  {
    assert forall i | 0 <= i < 6 :: IsPlainChar("person"[i]);
  }
}
