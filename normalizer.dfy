/** The payload text normaliser `clean_kore_text` (app.py:124-139): unwrap a
    JSON envelope by one level or label an interactive payload, then delete
    markup tags and decode three entities. */
module Normalizer {
  import opened Wrappers
  import opened Text

  /** A JSON value found under a key of the decoded envelope: a string, or a
      value of any other kind (number, null, object, array, boolean). */
  datatype Field = Str(s: string) | NonStr

  /** What `json.loads` makes of the raw payload. Every document that starts
      with `{` and decodes is an object, so the only outcomes are a decoding
      failure and an object, described by what it holds under "text", whether
      it has a "payload" key, and the `str()` of its "type" value if present. */
  datatype Parsed = ParseFail | Object(text: Option<Field>, hasPayload: bool, typ: Option<string>)

  /** The normaliser's outcome: a string, or the TypeError that `re.sub`
      raises when the unwrapped "text" value is not a string (that call is
      outside the `try`, so the error reaches the caller). */
  datatype Normalized = Normal(text: string) | Raises

  const InteractivePrefix := "[Interactive: "
  const DefaultType := "template"

  /** The finishing pass: strip tags, then three entity replacements in a fixed order. */
  function Finish(s: string): string
  {
    Replace(Replace(Replace(StripTags(s), "&nbsp;", " "), "&amp;", "&"), "&quot;", "\"")
  }

  /** The finishing pass, one stage at a time. This lemma, like the spelling
      lemmas below, states nothing new: it exists only to keep the worked
      examples' proofs fast. */
  lemma FinishOf(s: string, untagged: string, spaced: string, amped: string, quoted: string)
    requires StripTags(s) == untagged
    requires Replace(untagged, "&nbsp;", " ") == spaced
    requires Replace(spaced, "&amp;", "&") == amped
    requires Replace(amped, "&quot;", "\"") == quoted
    ensures Finish(s) == quoted
  {
  }

  /** `raw_text.strip().startswith("{")` */
  predicate LooksLikeJson(raw: string)
  {
    var t := Strip(raw);
    t != [] && t[0] == '{'
  }

  /** `clean_kore_text(raw_text)`, with the result of `json.loads(raw_text)`
      supplied as `parsed`; it is consulted only when the payload looks like JSON. */
  function CleanKoreText(raw: Option<string>, parsed: Parsed): Normalized
  {
    if raw.None? || raw.value == "" then Normal("")
    else if LooksLikeJson(raw.value) && parsed.Object? then
      if parsed.text.Some? then
        match parsed.text.value
        case Str(t) => Normal(Finish(t))
        case NonStr => Raises
      else if parsed.hasPayload then Normal(InteractivePrefix + parsed.typ.GetOr(DefaultType) + "]")
      else Normal(Finish(raw.value))
    else Normal(Finish(raw.value))
  }

  /** An absent or empty payload normalises to the empty string. */
  lemma CleanEmpty(raw: Option<string>, parsed: Parsed)
    requires raw == None || raw == Some("")
    ensures CleanKoreText(raw, parsed) == Normal("")
  {
  }

  /** A JSON envelope with a string "text" is unwrapped once: that string goes
      through the finishing pass and is never itself decoded again, whatever it
      looks like, and whatever else the envelope holds. */
  lemma CleanUnwrapsText(raw: string, t: string, hasPayload: bool, typ: Option<string>)
    requires LooksLikeJson(raw)
    ensures CleanKoreText(Some(raw), Object(Some(Str(t)), hasPayload, typ)) == Normal(Finish(t))
  {
  }

  /** A "text" value that is not a string makes the normaliser raise. */
  lemma CleanRaisesOnNonStringText(raw: string, hasPayload: bool, typ: Option<string>)
    requires LooksLikeJson(raw)
    ensures CleanKoreText(Some(raw), Object(Some(NonStr), hasPayload, typ)) == Raises
  {
  }

  /** An envelope with "payload" and no "text" becomes exactly the label, with
      no tag or entity processing (so a `<` or `&amp;` in the type survives). */
  lemma CleanInteractive(raw: string, typ: Option<string>)
    requires LooksLikeJson(raw)
    ensures CleanKoreText(Some(raw), Object(None, true, typ)) ==
      Normal("[Interactive: " + (if typ.Some? then typ.value else "template") + "]")
  {
  }

  /** A payload that does not look like JSON, fails to decode, or decodes to an
      object with neither "text" nor "payload" is treated as plain text. */
  lemma CleanFallsBack(raw: string, parsed: Parsed)
    requires raw != ""
    requires !LooksLikeJson(raw) || parsed == ParseFail || parsed == Object(None, false, parsed.typ)
    ensures CleanKoreText(Some(raw), parsed) == Normal(Finish(raw))
  {
  }

  /** Text without `<` and `&` passes the finishing pass unchanged. */
  lemma FinishUnchanged(s: string)
    requires '<' !in s && '&' !in s
    ensures Finish(s) == s
  {
    TagNeedsOpen(s);
    StripTagsUnchanged(s);
    ContainsFirstChar(s, "&nbsp;");
    ReplaceNoMatch(s, "&nbsp;", " ");
    ContainsFirstChar(s, "&amp;");
    ReplaceNoMatch(s, "&amp;", "&");
    ContainsFirstChar(s, "&quot;");
    ReplaceNoMatch(s, "&quot;", "\"");
  }

  /** A plain non-empty payload with no `<` and no `&` is returned unchanged. */
  lemma CleanPlainUnchanged(raw: string, parsed: Parsed)
    requires raw != "" && !LooksLikeJson(raw)
    requires '<' !in raw && '&' !in raw
    ensures CleanKoreText(Some(raw), parsed) == Normal(raw)
  {
    FinishUnchanged(raw);
  }

  // ---------------------------------------------------------------------
  // Worked cases of the finishing pass
  // ---------------------------------------------------------------------

  /** `&nbsp;` is not found in an `&amp;` that a text without another `&` follows. */
  lemma NbspAfterAmp(w: string)
    requires '&' !in w
    ensures Replace("&amp;" + w, "&nbsp;", " ") == "&amp;" + w
  {
    var s := "&amp;" + w;
    KeepHeadSecond(s, "&nbsp;", " ");
    assert s[1..] == "amp;" + w;
    ReplaceWithoutFirstChar(s[1..], "&nbsp;", " ");
  }

  /** The one `&amp;` in front of a text without another `&` is decoded, once. */
  lemma AmpDecoded(w: string)
    requires '&' !in w
    ensures Replace("&amp;" + w, "&amp;", "&") == "&" + w
  {
    var s := "&amp;" + w;
    ReplaceAtStart(s, "&amp;", "&");
    DropFront("&amp;", w);
    ReplaceWithoutFirstChar(w, "&amp;", "&");
  }

  /** An `&` that does not start `&quot;`, with no other `&` after it, is kept. */
  lemma QuotAbsentAfterAmp(w: string)
    requires '&' !in w && w != [] && w[0] != 'q'
    ensures Replace("&" + w, "&quot;", "\"") == "&" + w
  {
    var s := "&" + w;
    KeepHeadSecond(s, "&quot;", "\"");
    assert s[1..] == w;
    ReplaceWithoutFirstChar(w, "&quot;", "\"");
  }

  /** How the worked entity strings are spelled. These three lemmas state
      nothing about the source; they exist only to keep the proofs of the
      worked examples fast, since the solver handles these literal facts
      slowly in a larger context. */
  lemma QuotSpelled()
    ensures "&amp;quot;" == "&amp;" + "quot;" && "&quot;" == "&" + "quot;"
    ensures '&' !in "quot;"
  {
  }

  lemma NbspSpelled()
    ensures "&amp;nbsp;" == "&amp;" + "nbsp;" && "&nbsp;" == "&" + "nbsp;"
    ensures '&' !in "nbsp;"
  {
  }

  lemma ByeSpelled()
    ensures "&amp;bye" == "&amp;" + "bye" && "&bye" == "&" + "bye"
    ensures '&' !in "bye"
  {
  }

  lemma QuotStep()
    ensures Replace("&quot;", "&quot;", "\"") == "\""
  {
    ReplaceAtStart("&quot;", "&quot;", "\"");
    assert "&quot;"[6..] == [];
  }

  /** The replacements run once each, in order: a doubly escaped quote comes
      out as a quote, because `&amp;` is decoded before `&quot;` is looked for. */
  lemma DoubleEscapedQuote()
    ensures Finish("&amp;quot;") == "\""
  {
    NoOpenUnchanged("&amp;quot;");
    QuotSpelled();
    NbspAfterAmp("quot;");
    AmpDecoded("quot;");
    QuotStep();
    FinishOf("&amp;quot;", "&amp;quot;", "&amp;quot;", "&quot;", "\"");
  }

  /** ... whereas a doubly escaped non-breaking space keeps one level of
      escaping, because `&nbsp;` was looked for before `&amp;` was decoded. */
  lemma DoubleEscapedSpace()
    ensures Finish("&amp;nbsp;") == "&nbsp;"
  {
    NoOpenUnchanged("&amp;nbsp;");
    NbspSpelled();
    NbspAfterAmp("nbsp;");
    AmpDecoded("nbsp;");
    QuotAbsentAfterAmp("nbsp;");
    FinishOf("&amp;nbsp;", "&amp;nbsp;", "&amp;nbsp;", "&nbsp;", "&nbsp;");
  }

  lemma CloseTagRemoved(t: string)
    requires '<' !in t
    ensures StripTags("</b>" + t) == t
  {
    TagAtStart("</b>" + t, 4);
    DropFront("</b>", t);
    NoOpenUnchanged(t);
  }

  lemma OpenTagRemoved(rest: string)
    ensures StripTags("<b>" + rest) == StripTags(rest)
  {
    TagAtStart("<b>" + rest, 3);
    DropFront("<b>", rest);
  }

  /** A bold-tagged word: both tags go, the word and what follows stay. */
  lemma BoldRemoved(w: string, t: string)
    requires '<' !in w && '<' !in t
    ensures StripTags("<b>" + (w + ("</b>" + t))) == w + t
  {
    OpenTagRemoved(w + ("</b>" + t));
    KeptPrefix(w, "</b>" + t);
    CloseTagRemoved(t);
  }

  /** An envelope whose "text" is `<b>w</b>&amp;bye` normalises to `w&bye`
      (for `w` = `Hi`, `Hi&bye`): the tags go first, then the entity. */
  lemma TaggedEnvelope(raw: string, w: string, hasPayload: bool, typ: Option<string>)
    requires LooksLikeJson(raw) && '<' !in w && '&' !in w
    ensures CleanKoreText(Some(raw), Object(Some(Str("<b>" + (w + ("</b>" + "&amp;bye")))), hasPayload, typ))
         == Normal(w + "&bye")
  {
    var t := "<b>" + (w + ("</b>" + "&amp;bye"));
    CleanUnwrapsText(raw, t, hasPayload, typ);
    BoldRemoved(w, "&amp;bye");
    ByeSpelled();
    ReplaceKeepsFront(w, "&amp;bye", "&nbsp;", " ");
    NbspAfterAmp("bye");
    ReplaceKeepsFront(w, "&amp;bye", "&amp;", "&");
    AmpDecoded("bye");
    ReplaceKeepsFront(w, "&bye", "&quot;", "\"");
    QuotAbsentAfterAmp("bye");
    FinishOf(t, w + "&amp;bye", w + "&amp;bye", w + "&bye", w + "&bye");
  }

  /** `<>` at the start of a text is not a tag, since the pattern needs a
      character between the brackets: it survives, and the rest of the text
      is substituted on its own. */
  lemma EmptyBracketsKept(y: string)
    ensures StripTags("<>" + y) == "<>" + StripTags(y)
  {
    var s := "<>" + y;
    assert s[0] == '<' && s[1] == '>';
    assert TagLen(s) == 0;
    assert StripTags(s) == [s[0]] + StripTags(s[1..]);
    KeptAtStart(s[1..]);
    assert s[1..][1..] == y;
  }
}
