/** The per-message step of the fetch loop (app.py:200-218): take the raw text
    out of a message, normalise it, drop noise, and build the record. */
module Messages {
  import opened Wrappers
  import opened Text
  import opened Normalizer

  datatype Sender = User | Bot

  /** One message as the history API returns it. `text` is
      `components[0].data.text`: None when `components` is missing or empty,
      when a level is missing, or when the value is null (all of these reach
      the normaliser as a falsy value). `parsed` is what `json.loads` makes of
      that text. The other optional fields are None when the key is absent. */
  datatype RawMessage = RawMessage(
    createdOn: int,
    sessionId: Option<string>,
    createdBy: Option<string>,
    kind: Option<string>,
    text: Option<string>,
    parsed: Parsed)

  /** A normalised message record. */
  datatype Record = Record(Timestamp: int, SessionID: string, UserID: string, Sender: Sender, Message: string)

  /** What the loop body does with one message: append a record, `continue`,
      or raise (the TypeError of the normaliser). */
  datatype Emission = Emit(record: Record) | Skip | Raise

  const Marker := "@@userdetailspayload@@"
  const UnknownSession := "unknown"
  const SystemUser := "system"
  const Incoming := "incoming"

  predicate IsHexDigit(c: char)
  {
    '0' <= c <= '9' || 'a' <= c <= 'f' || 'A' <= c <= 'F'
  }

  predicate IsHyphenPosition(i: int)
  {
    i == 8 || i == 13 || i == 18 || i == 23
  }

  /** `UUID_PATTERN.match(s)` (app.py:110): the whole string is 8-4-4-4-12
      hexadecimal digits separated by hyphens. (The pattern's `$` could also
      match before a final newline, but it is applied only to stripped text.) */
  predicate IsUuid(s: string)
  {
    |s| == 36 && forall i :: 0 <= i < 36 ==> if IsHyphenPosition(i) then s[i] == '-' else IsHexDigit(s[i])
  }

  /** The three filters of app.py:205-210 on the normalised text. */
  predicate Keep(text: string)
  {
    var stripped := Strip(text);
    text != "" && !IsUuid(stripped) && !Contains(stripped, Marker)
  }

  function MakeRecord(m: RawMessage, text: string): Record
  {
    Record(m.createdOn, m.sessionId.GetOr(UnknownSession), m.createdBy.GetOr(SystemUser),
           if m.kind == Some(Incoming) then User else Bot, text)
  }

  /** The body of `for msg in messages` in `fetch_data`. */
  function Process(m: RawMessage): Emission
  {
    match CleanKoreText(m.text, m.parsed)
    case Raises => Raise
    case Normal(text) => if Keep(text) then Emit(MakeRecord(m, text)) else Skip
  }

  /** A message is emitted exactly when its normalised text is non-empty, its
      stripped form is not a UUID and does not contain the marker; the record
      then carries the message's fields with the documented defaults and the
      unstripped text. */
  lemma ProcessEmits(m: RawMessage)
    ensures Process(m).Emit? <==>
      (var c := CleanKoreText(m.text, m.parsed);
       c.Normal? && c.text != "" && !IsUuid(Strip(c.text)) && !Contains(Strip(c.text), Marker))
    ensures Process(m).Emit? ==>
      var r := Process(m).record;
      && r.Message == CleanKoreText(m.text, m.parsed).text
      && r.Message != ""
      && r.Timestamp == m.createdOn
      && r.SessionID == (if m.sessionId.Some? then m.sessionId.value else "unknown")
      && r.UserID == (if m.createdBy.Some? then m.createdBy.value else "system")
      && (r.Sender == User <==> m.kind == Some("incoming"))
  {
  }

  /** A message raises exactly when the normaliser does. */
  lemma ProcessRaises(m: RawMessage)
    ensures Process(m) == Raise <==> CleanKoreText(m.text, m.parsed) == Raises
  {
  }

  /** A message without text (no components, a missing level, null) is dropped. */
  lemma MissingTextSkipped(m: RawMessage)
    requires m.text == None || m.text == Some("")
    ensures Process(m) == Skip
  {
  }

  /** Whitespace-only text passes every filter and is stored as it is. */
  lemma WhitespaceKept(m: RawMessage, t: string)
    requires CleanKoreText(m.text, m.parsed) == Normal(t)
    requires t != "" && AllSpace(t)
    ensures Process(m) == Emit(MakeRecord(m, t))
  {
    StripOf(t, "", "");
    assert t + "" + "" == t;
    assert !Contains("", Marker);
  }

  /** A UUID is dropped whatever whitespace surrounds it. */
  lemma UuidSkipped(m: RawMessage, before: string, uuid: string, after: string)
    requires CleanKoreText(m.text, m.parsed) == Normal(before + uuid + after)
    requires AllSpace(before) && AllSpace(after) && IsUuid(uuid)
    ensures Process(m) == Skip
  {
    assert !IsSpace(uuid[0]) && !IsSpace(uuid[35]);
    StripOf(before, uuid, after);
  }

  lemma MarkerHasNoSpace()
    ensures forall k :: 0 <= k < |Marker| ==> !IsSpace(Marker[k])
  {
  }

  /** Stripping cannot hide or reveal the marker, which has no whitespace. */
  lemma MarkerSurvivesStrip(text: string)
    ensures Contains(Strip(text), Marker) <==> Contains(text, Marker)
  {
    MarkerHasNoSpace();
    ContainsThroughStrip(text, Marker);
  }
}
