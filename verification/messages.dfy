/**
 The two outbound protocol messages (`request1` and `request2` in
 src/tts.rs). Each is a header block in the layout of `Framing`, then a
 body made by filling a template with `str::replace`. The timestamp and the
 request id come from the clock and a random UUID in the source; here they
 are parameters.
 */
module Messages {
  import opened Wrappers
  import opened Strings
  import opened Framing
  import opened Templates

  /** The slot markers of both templates, in the order they are replaced. */
  const Placeholders: seq<string> := ["{1}", "{2}", "{3}", "{4}", "{5}", "{6}"]

  // ---------------------------------------------------------------------
  // speech.config

  // Long literals are written as short chunks so that the verifier can
  // inspect their characters; the concatenations spell the source's
  // template strings exactly.

  const SentenceBoundaryOff := "\"sentenceBoundaryEnabled\":\"false\""
  const WordBoundaryOff := "\"wordBoundaryEnabled\":\"false\""

  const ContextOpen := "{\"context\":{\"synthesis\":"
  const AudioOpen := "{\"audio\":{\"metadataoptions\":{"

  /** The JSON before and after the output-format slot. */
  const ConfigHead :=
    ContextOpen + AudioOpen
    + SentenceBoundaryOff + "," + WordBoundaryOff + "},"
    + "\"outputFormat\":\""
  const ConfigTail := "\"}}}}"

  const ConfigTemplate := ConfigHead + "{1}" + ConfigTail

  const JsonContentType := "application/json; charset=utf-8"

  function ConfigHeaders(timestamp: string): seq<Header>
  {
    [ Header("X-Timestamp", timestamp),
      Header("Content-Type", JsonContentType),
      Header("Path", "speech.config") ]
  }

  /**
   The JSON body: both boundary flags off, and the output format placed
   verbatim in its slot whatever it contains.
   */
  function ConfigBody(outputFormat: string): (r: string)
    ensures r == ConfigHead + outputFormat + ConfigTail
  {
    ConfigHasNoDigitOne();
    AbsentByMissingChar(ConfigHead, "{1}", 1);
    AbsentByMissingChar(ConfigTail, "{1}", 1);
    ReplaceSplice(ConfigHead, "{1}", ConfigTail, outputFormat);
    Replace(ConfigTemplate, "{1}", outputFormat)
  }

  /** The JSON template's one placeholder is the only `1` in it. */
  lemma ConfigHasNoDigitOne()
    ensures '1' !in ConfigHead && '1' !in ConfigTail
  {
    NoDigitOneInContextOpen();
    NoDigitOneInAudioOpen();
    NoDigitOneInBoundaryFlags();
  }

  /*
   The facts below each inspect one long literal, which Dafny settles by
   unfolding it character by character. They are kept as separate lemmas
   so that no proof holds more than one such literal at a time.
   */
  lemma NoDigitOneInContextOpen()
    ensures '1' !in ContextOpen
  {
  }

  lemma NoDigitOneInAudioOpen()
    ensures '1' !in AudioOpen
  {
  }

  lemma NoDigitOneInBoundaryFlags()
    ensures '1' !in SentenceBoundaryOff && '1' !in WordBoundaryOff
  {
  }

  /**
   `request1`: the `speech.config` message. Each header line is spelled
   name, colon, value, CRLF, which is the text the source pushes.
   */
  function Request1(timestamp: string, outputFormat: string): (r: string)
    ensures r == Render(ConfigHeaders(timestamp), ConfigHead + outputFormat + ConfigTail)
  {
    RenderThree("X-Timestamp", timestamp, "Content-Type", JsonContentType,
                "Path", "speech.config", ConfigHead + outputFormat + ConfigTail);
    "X-Timestamp" + ":" + timestamp + Crlf
    + "Content-Type" + ":" + JsonContentType + Crlf
    + "Path" + ":" + "speech.config" + Crlf + Crlf
    + ConfigBody(outputFormat)
  }

  lemma ConfigHeadersWellFormed(timestamp: string)
    requires '\r' !in timestamp
    ensures forall i | 0 <= i < |ConfigHeaders(timestamp)| :: WellFormed(ConfigHeaders(timestamp)[i])
  {
    HeaderNamesPlain();
    JsonContentTypePlain();
    assert '\r' !in "speech.config";
  }

  /** The fixed header names hold no colon and no carriage return. */
  lemma HeaderNamesPlain()
    ensures ':' !in "X-Timestamp" && '\r' !in "X-Timestamp"
    ensures ':' !in "Content-Type" && '\r' !in "Content-Type"
    ensures ':' !in "Path" && '\r' !in "Path"
    ensures ':' !in "X-RequestId" && '\r' !in "X-RequestId"
  {
  }

  lemma JsonContentTypePlain()
    ensures '\r' !in JsonContentType
  {
  }

  /**
   Reading the config message back yields exactly its three headers, in
   order, and the JSON body, for any timestamp without a carriage return.
   */
  lemma Request1Parses(timestamp: string, outputFormat: string)
    requires '\r' !in timestamp
    ensures Parse(Request1(timestamp, outputFormat))
         == Some((ConfigHeaders(timestamp), ConfigHead + outputFormat + ConfigTail))
  {
    ConfigHeadersWellFormed(timestamp);
    ParseRender(ConfigHeaders(timestamp), ConfigHead + outputFormat + ConfigTail);
  }

  // ---------------------------------------------------------------------
  // ssml

  const XmlDeclaration := "<?xml version=\"1.0\" encoding=\"UTF-8\"?>\n"
  const SpeakOpen :=
    "<speak version=\"1.0\" " + "xmlns=\"http://www.w3.org/" + "2001/10/synthesis\"" + "  xml:lang=\""
  const SsmlClose := "</prosody>\n" + "</voice>\n" + "</speak>\n"

  /** The literal text of the SSML template around its six slots. */
  const SsmlPiece0 := XmlDeclaration + SpeakOpen
  const SsmlPiece1 := "\">\n" + "<voice name=\""
  const SsmlPiece2 := "\">\n" + "<prosody pitch=\""
  const SsmlPiece3 := "\" rate=\""
  const SsmlPiece4 := "\" volume=\""
  const SsmlPiece5 := "\">"
  const SsmlPiece6 := SsmlClose

  const SsmlTemplate :=
    SsmlPiece0 + "{1}" + SsmlPiece1 + "{2}" + SsmlPiece2 + "{3}" + SsmlPiece3 + "{4}"
    + SsmlPiece4 + "{5}" + SsmlPiece5 + "{6}" + SsmlPiece6

  const SsmlPieces: seq<string> :=
    [SsmlPiece0, SsmlPiece1, SsmlPiece2, SsmlPiece3, SsmlPiece4, SsmlPiece5, SsmlPiece6]

  const SsmlContentType := "application/ssml+xml"

  function SsmlHeaders(requestId: string, timestamp: string): seq<Header>
  {
    [ Header("X-RequestId", requestId),
      Header("Content-Type", SsmlContentType),
      Header("X-Timestamp", timestamp),
      Header("Path", "ssml") ]
  }

  /** Six `replace` calls on `template`, one after another, as in the source. */
  function ReplaceSix(template: string, lang: string, voice: string, pitch: string, rate: string, volume: string,
                      text: string): string
  {
    Replace(Replace(Replace(Replace(Replace(Replace(
      template, "{1}", lang), "{2}", voice), "{3}", pitch), "{4}", rate), "{5}", volume), "{6}", text)
  }

  /**
   The SSML body: the template with its six slots replaced in turn. Each
   argument lands in its own slot and is then rewritten by the replacements
   of the later placeholders, so a placeholder inside an argument is filled
   in too; the text, replaced last, is kept verbatim.
   */
  function SsmlBody(lang: string, voice: string, pitch: string, rate: string, volume: string, text: string): (r: string)
    ensures var xs := [lang, voice, pitch, rate, volume, text];
      r == Fill(SsmlPieces, [ReplaceSpan(lang, Placeholders, xs, 1, 6), ReplaceSpan(voice, Placeholders, xs, 2, 6),
                             ReplaceSpan(pitch, Placeholders, xs, 3, 6), ReplaceSpan(rate, Placeholders, xs, 4, 6),
                             ReplaceSpan(volume, Placeholders, xs, 5, 6), text])
  {
    SsmlTemplateFacts();
    ReplaceSixRescans(SsmlTemplate, SsmlPieces, lang, voice, pitch, rate, volume, text);
    ReplaceSix(SsmlTemplate, lang, voice, pitch, rate, volume, text)
  }

  /** `SsmlBody`'s contract for any six-slot template. */
  lemma ReplaceSixRescans(t: string, ps: seq<string>,
                          lang: string, voice: string, pitch: string, rate: string, volume: string, text: string)
    requires SixSlotTemplate(t, ps)
    ensures var xs := [lang, voice, pitch, rate, volume, text];
      ReplaceSix(t, lang, voice, pitch, rate, volume, text)
      == Fill(ps, [ReplaceSpan(lang, Placeholders, xs, 1, 6), ReplaceSpan(voice, Placeholders, xs, 2, 6),
                   ReplaceSpan(pitch, Placeholders, xs, 3, 6), ReplaceSpan(rate, Placeholders, xs, 4, 6),
                   ReplaceSpan(volume, Placeholders, xs, 5, 6), text])
  {
    var xs := [lang, voice, pitch, rate, volume, text];
    ReplaceSixIsReplaceSpan(t, xs);
    TemplateAfterSpan(ps, Placeholders, xs, 6);
    RescannedSix(xs, Placeholders);
  }

  /** `arg` holds none of the placeholders replaced after slot `k`. */
  predicate NoLaterPlaceholder(arg: string, k: nat)
  {
    forall j | k < j < |Placeholders| :: !Contains(arg, Placeholders[j])
  }

  lemma SsmlTemplateShape()
    ensures SsmlTemplate == Fill(SsmlPieces, Placeholders)
  {
    FillSix(SsmlPieces, Placeholders);
  }

  /** A character that cannot be part of a placeholder. */
  predicate QuietEdge(c: char)
  {
    c == '"' || c == '<' || c == '>' || c == '\n'
  }

  /** A piece without braces whose first and last characters are quiet. */
  predicate PlainPiece(p: string)
  {
    '{' !in p && |p| > 0 && QuietEdge(p[0]) && QuietEdge(p[|p| - 1])
  }

  // One literal per lemma, as for the JSON template above.
  lemma NoBraceInXmlDeclaration()
    ensures '{' !in XmlDeclaration
  {
  }

  lemma NoBraceInSpeakOpen()
    ensures '{' !in SpeakOpen
  {
  }

  lemma SsmlPiece0Plain()
    ensures PlainPiece(SsmlPiece0)
  {
    NoBraceInXmlDeclaration();
    NoBraceInSpeakOpen();
    assert SsmlPiece0[0] == XmlDeclaration[0];
    assert SsmlPiece0[|SsmlPiece0| - 1] == SpeakOpen[|SpeakOpen| - 1];
  }

  lemma SsmlPiecesMiddlePlain()
    ensures PlainPiece(SsmlPiece1) && PlainPiece(SsmlPiece2) && PlainPiece(SsmlPiece3)
    ensures PlainPiece(SsmlPiece4) && PlainPiece(SsmlPiece5)
  {
  }

  lemma SsmlPiece6Plain()
    ensures PlainPiece(SsmlPiece6)
  {
  }

  lemma SsmlPiecesPlain()
    ensures forall i | 0 <= i < |SsmlPieces| :: PlainPiece(SsmlPieces[i])
  {
    SsmlPiece0Plain();
    SsmlPiecesMiddlePlain();
    SsmlPiece6Plain();
  }

  /** Plain pieces guard every placeholder. */
  lemma PlainPiecesGuarded(ps: seq<string>, k: nat)
    requires k < |Placeholders| && forall i | 0 <= i < |ps| :: PlainPiece(ps[i])
    ensures Guarded(ps, Placeholders[k])
  {
    var pat := Placeholders[k];
    assert pat[0] == '{' && forall c | c in pat :: !QuietEdge(c);
    forall i | 0 <= i < |ps|
      ensures !Contains(ps[i], pat)
    {
      AbsentByMissingChar(ps[i], pat, 0);
    }
  }

  lemma SsmlPiecesGuarded(k: nat)
    requires k < |Placeholders|
    ensures Guarded(SsmlPieces, Placeholders[k])
  {
    SsmlPiecesPlain();
    PlainPiecesGuarded(SsmlPieces, k);
  }

  lemma PlaceholdersDistinct()
    ensures Unnested(Placeholders)
  {
    forall i, j | 0 <= i < |Placeholders| && 0 <= j < |Placeholders| && i != j
      ensures !Contains(Placeholders[j], Placeholders[i])
    {
      assert Placeholders[j][1] != Placeholders[i][1];
      assert !OccursAt(Placeholders[j], Placeholders[i], 0);
    }
  }

  /** The SSML template's pieces and placeholders meet the conditions of `FillReplaceSpan`. */
  lemma SsmlTemplateFacts()
    ensures SixSlotTemplate(SsmlTemplate, SsmlPieces)
  {
    SsmlPiecesPlain();
    PlainSixSlot(SsmlPieces);
    SsmlTemplateShape();
  }

  /** Seven plain pieces around the placeholders form a six-slot template. */
  lemma PlainSixSlot(ps: seq<string>)
    requires |ps| == 7 && forall i | 0 <= i < |ps| :: PlainPiece(ps[i])
    ensures SixSlotTemplate(Fill(ps, Placeholders), ps)
  {
    PlainPiecesAllGuarded(ps);
    PlaceholdersDistinct();
  }

  lemma PlainPiecesAllGuarded(ps: seq<string>)
    requires forall i | 0 <= i < |ps| :: PlainPiece(ps[i])
    ensures AllGuarded(ps, Placeholders)
  {
    forall k | 0 <= k < |Placeholders|
      ensures |Placeholders[k]| > 0 && Guarded(ps, Placeholders[k])
    {
      PlainPiecesGuarded(ps, k);
    }
  }

  /** `t` is a template of seven guarded pieces around the six placeholders. */
  predicate SixSlotTemplate(t: string, ps: seq<string>)
  {
    |ps| == 7 && t == Fill(ps, Placeholders) && AllGuarded(ps, Placeholders) && Unnested(Placeholders)
  }

  /** The six nested calls of `ReplaceSix` are the replacement fold over the placeholders. */
  lemma ReplaceSixIsReplaceSpan(t: string, xs: seq<string>)
    requires |xs| == 6
    ensures ReplaceSix(t, xs[0], xs[1], xs[2], xs[3], xs[4], xs[5])
         == Replace(ReplaceSpan(t, Placeholders, xs, 0, 5), "{6}", xs[5])
    ensures ReplaceSix(t, xs[0], xs[1], xs[2], xs[3], xs[4], xs[5])
         == ReplaceSpan(t, Placeholders, xs, 0, 6)
  {
    ReplaceSpanSix(t, Placeholders, xs);
  }

  /**
   With no argument holding a placeholder that is replaced after its own,
   each argument lands verbatim in its own slot: `xml:lang="lang"`,
   `<voice name="voice">`, and
   `<prosody pitch="pitch" rate="rate" volume="volume">text</prosody>`.
   The text is inserted as is, without XML escaping, and may hold anything.
   */
  lemma SsmlBodyLayout(lang: string, voice: string, pitch: string, rate: string, volume: string, text: string)
    requires NoLaterPlaceholder(lang, 0) && NoLaterPlaceholder(voice, 1) && NoLaterPlaceholder(pitch, 2)
    requires NoLaterPlaceholder(rate, 3) && NoLaterPlaceholder(volume, 4)
    ensures SsmlBody(lang, voice, pitch, rate, volume, text)
         == Fill(SsmlPieces, [lang, voice, pitch, rate, volume, text])
  {
    SsmlTemplateFacts();
    ReplaceSixLayout(SsmlTemplate, SsmlPieces, lang, voice, pitch, rate, volume, text);
  }

  /** `SsmlBodyLayout` for any six-slot template. */
  lemma ReplaceSixLayout(t: string, ps: seq<string>,
                         lang: string, voice: string, pitch: string, rate: string, volume: string, text: string)
    requires SixSlotTemplate(t, ps)
    requires NoLaterPlaceholder(lang, 0) && NoLaterPlaceholder(voice, 1) && NoLaterPlaceholder(pitch, 2)
    requires NoLaterPlaceholder(rate, 3) && NoLaterPlaceholder(volume, 4)
    ensures ReplaceSix(t, lang, voice, pitch, rate, volume, text)
         == Fill(ps, [lang, voice, pitch, rate, volume, text])
  {
    var xs := [lang, voice, pitch, rate, volume, text];
    ArgumentsFreeOfLaterPlaceholders(xs);
    ReplaceSixIsReplaceSpan(t, xs);
    FillReplaceAll(ps, Placeholders, xs);
  }

  lemma ArgumentsFreeOfLaterPlaceholders(xs: seq<string>)
    requires |xs| == |Placeholders|
    requires forall j | 0 <= j < |xs| - 1 :: NoLaterPlaceholder(xs[j], j)
    ensures NoLaterPattern(xs, Placeholders, 6)
  {
    forall i, j | 0 <= j < i < |Placeholders|
      ensures !Contains(xs[j], Placeholders[i])
    {
      assert NoLaterPlaceholder(xs[j], j);
    }
  }

  /**
   The replacements are sequential, so a placeholder inside an earlier
   argument is rewritten by a later call: a language of `{6}` comes out as
   the text, which then appears twice.
   */
  lemma PlaceholderInLangIsRewritten(voice: string, pitch: string, rate: string, volume: string, text: string)
    requires NoLaterPlaceholder(voice, 1) && NoLaterPlaceholder(pitch, 2)
    requires NoLaterPlaceholder(rate, 3) && NoLaterPlaceholder(volume, 4)
    ensures SsmlBody("{6}", voice, pitch, rate, volume, text)
         == Fill(SsmlPieces, [text, voice, pitch, rate, volume, text])
  {
    SsmlTemplateFacts();
    ReplaceSixLangSix(SsmlTemplate, SsmlPieces, voice, pitch, rate, volume, text);
  }

  /** `PlaceholderInLangIsRewritten` for any six-slot template. */
  lemma ReplaceSixLangSix(t: string, ps: seq<string>,
                          voice: string, pitch: string, rate: string, volume: string, text: string)
    requires SixSlotTemplate(t, ps)
    requires NoLaterPlaceholder(voice, 1) && NoLaterPlaceholder(pitch, 2)
    requires NoLaterPlaceholder(rate, 3) && NoLaterPlaceholder(volume, 4)
    ensures ReplaceSix(t, "{6}", voice, pitch, rate, volume, text)
         == Fill(ps, [text, voice, pitch, rate, volume, text])
  {
    var xs := ["{6}", voice, pitch, rate, volume, text];
    assert forall j | 1 <= j < 5 :: NoLaterPlaceholder(xs[j], j);
    ReplaceSixIsReplaceSpan(t, xs);
    assert Placeholders[5] == "{6}";
    LastSlotPatternInFirstSlot(ps, Placeholders, xs);
  }

  /**
   For any template of six guarded, unnested placeholders: an argument in
   the first slot equal to the last placeholder survives the first five
   replacements and is then rewritten by the sixth, together with the last
   slot.
   */
  lemma LastSlotPatternInFirstSlot(ps: seq<string>, pats: seq<string>, xs: seq<string>)
    requires |ps| == 7 && |pats| == 6 && |xs| == 6 && xs[0] == pats[5]
    requires AllGuarded(ps, pats) && Unnested(pats)
    requires forall i, j | 1 <= j < i < 6 :: !Contains(xs[j], pats[i])
    ensures Replace(ReplaceSpan(Fill(ps, pats), pats, xs, 0, 5), pats[5], xs[5])
         == Fill(ps, [xs[5], xs[1], xs[2], xs[3], xs[4], xs[5]])
  {
    assert NoLaterPattern(xs, pats, 5);
    FillReplacePrefix(ps, pats, xs, 5);
    var ys := xs[..5] + pats[5..];
    assert ys == [pats[5], xs[1], xs[2], xs[3], xs[4], pats[5]];
    FillReplaceSlots(ps, ys, pats[5], xs[5]);
    ContainsSelf(pats[5]);
    assert SubstSlots(ys, pats[5], xs[5]) == [xs[5], xs[1], xs[2], xs[3], xs[4], xs[5]];
  }

  /**
   `request2`: the `ssml` message, headers `X-RequestId`, `Content-Type`,
   `X-Timestamp`, `Path` in that order, a blank line, then the SSML body.
   */
  function Request2(requestId: string, timestamp: string, lang: string, voice: string, pitch: string,
                    rate: string, volume: string, text: string): (r: string)
    ensures r == Render(SsmlHeaders(requestId, timestamp), SsmlBody(lang, voice, pitch, rate, volume, text))
  {
    var body := SsmlBody(lang, voice, pitch, rate, volume, text);
    RenderFour("X-RequestId", requestId, "Content-Type", SsmlContentType,
               "X-Timestamp", timestamp, "Path", "ssml", body);
    "X-RequestId" + ":" + requestId + Crlf
    + "Content-Type" + ":" + SsmlContentType + Crlf
    + "X-Timestamp" + ":" + timestamp + Crlf
    + "Path" + ":" + "ssml" + Crlf + Crlf
    + body
  }

  lemma SsmlHeadersWellFormed(requestId: string, timestamp: string)
    requires '\r' !in requestId && '\r' !in timestamp
    ensures forall i | 0 <= i < |SsmlHeaders(requestId, timestamp)| :: WellFormed(SsmlHeaders(requestId, timestamp)[i])
  {
    HeaderNamesPlain();
    assert '\r' !in SsmlContentType;
    assert '\r' !in "ssml";
  }

  /**
   Reading the SSML message back yields its four headers, in order, and
   the SSML body, for a request id and timestamp without carriage returns.
   */
  lemma Request2Parses(requestId: string, timestamp: string, lang: string, voice: string, pitch: string,
                       rate: string, volume: string, text: string)
    requires '\r' !in requestId && '\r' !in timestamp
    ensures Parse(Request2(requestId, timestamp, lang, voice, pitch, rate, volume, text))
         == Some((SsmlHeaders(requestId, timestamp), SsmlBody(lang, voice, pitch, rate, volume, text)))
  {
    SsmlHeadersWellFormed(requestId, timestamp);
    ParseRender(SsmlHeaders(requestId, timestamp), SsmlBody(lang, voice, pitch, rate, volume, text));
  }
}
