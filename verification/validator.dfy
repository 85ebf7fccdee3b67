/** The validator, `validate_document` (authenticator/auther.py:16-48): it
    checks a loaded record against a configuration of required image hashes
    and required page-1 texts and collects every failure instead of stopping
    at the first. */
module Validator {
  import opened Wrappers
  import opened Text
  import opened Document

  /** The configuration file: `imagenes_a_validar` reduced to the hashes it
      lists, and `textos_a_validar`. An absent key is the empty list. */
  datatype Config = Config(requiredHashes: seq<string>, requiredTexts: seq<TextValue>)

  /** One validation failure; `Message` renders it as the report line. */
  datatype Failure =
    | MissingImage(hash: string)   // a required hash no extracted image carries
    | NoPageOneText                // page 1 is blank but texts are required
    | MissingText(text: string)    // a required text, as configured, absent from page 1

  /** The error line the validator appends for each failure
      (authenticator/auther.py:32, :41, :46). */
  function Message(f: Failure): string {
    match f
    case MissingImage(h) => "Error de imagen: El hash requerido '" + h + "' no fue encontrado."
    case NoPageOneText => "Error de texto: No se encontr\U{00F3} " + "texto en la 'pagina_1' del documento."
    case MissingText(t) => "Error de texto: La cadena obligatoria '" + t + "' no se encontr\U{00F3} en la p\U{00E1}gina 1."
  }

  /** The report lines of a list of failures, in order. */
  function Messages(fs: seq<Failure>): (ms: seq<string>)
    ensures |ms| == |fs|
    ensures forall i :: 0 <= i < |fs| ==> ms[i] == Message(fs[i])
  {
    seq(|fs|, i requires 0 <= i < |fs| => Message(fs[i]))
  }

  /** Rendering commutes with cutting the list. */
  lemma MessagesSplit(fs: seq<Failure>, k: nat)
    requires k <= |fs|
    ensures Messages(fs)[k..] == Messages(fs[k..])
    ensures forall f :: f in fs[..k] ==> Message(f) in Messages(fs)[..k]
  {
    var ms := Messages(fs);
    forall f | f in fs[..k]
      ensures Message(f) in ms[..k]
    {
      var i :| 0 <= i < k && fs[..k][i] == f;
      assert ms[..k][i] == Message(f);
    }
  }

  /** If `a + m + b == a + n + b` then `m == n`. */
  lemma CancelFrame(a: string, m: string, n: string, b: string)
    requires a + m + b == a + n + b
    ensures m == n
  {
    assert |m| == |n|;
    assert m == (a + m + b)[|a|..|a| + |m|];
    assert n == (a + n + b)[|a|..|a| + |n|];
  }

  /** The characters that tell the three kinds of line apart. */
  lemma MessageKind(f: Failure)
    ensures |Message(f)| > 16
    ensures Message(f)[9] == (if f.MissingImage? then 'i' else 't')
    ensures f.NoPageOneText? ==> Message(f)[16] == 'N'
    ensures f.MissingText? ==> Message(f)[16] == 'L'
  {
    if f.MissingImage? {
      ImageMessageKind(f.hash);
    } else if f.NoPageOneText? {
      var s := Message(f);
      assert s[9] == 't' && s[16] == 'N';
    } else {
      TextMessageKind(f.text);
    }
  }

  lemma ImageMessageKind(h: string)
    ensures |Message(MissingImage(h))| > 16 && Message(MissingImage(h))[9] == 'i'
  {
    var s := Message(MissingImage(h));
    assert s[9] == 'i';
  }

  lemma TextMessageKind(t: string)
    ensures |Message(MissingText(t))| > 16
    ensures Message(MissingText(t))[9] == 't' && Message(MissingText(t))[16] == 'L'
  {
    var s := Message(MissingText(t));
    assert s[9] == 't' && s[16] == 'L';
  }

  /** Distinct failures give distinct lines, so the report loses nothing. */
  lemma MessageInjective(f: Failure, g: Failure)
    requires Message(f) == Message(g)
    ensures f == g
  {
    MessageKind(f);
    MessageKind(g);
    if f.MissingImage? && g.MissingImage? {
      CancelFrame("Error de imagen: El hash requerido '", f.hash, g.hash, "' no fue encontrado.");
    } else if f.MissingText? && g.MissingText? {
      CancelFrame("Error de texto: La cadena obligatoria '", f.text, g.text,
                  "' no se encontr\U{00F3} en la p\U{00E1}gina 1.");
    }
  }

  // ---------------------------------------------------------------------
  // Image hashes (authenticator/auther.py:25-32)
  // ---------------------------------------------------------------------

  /** The hashes some extracted image carries. */
  function FoundHashes(data: LoadedRecord): set<string> {
    set i | 0 <= i < |data.images| :: data.images[i].hash
  }

  /** The required hashes that no extracted image carries: a set, so a hash
      listed twice is reported once. */
  function MissingHashes(data: LoadedRecord, config: Config): (m: set<string>)
    ensures forall h :: h in m <==>
      h in config.requiredHashes && forall i :: 0 <= i < |data.images| ==> data.images[i].hash != h
  {
    (set h | h in config.requiredHashes) - FoundHashes(data)
  }

  // ---------------------------------------------------------------------
  // Page-1 texts (authenticator/auther.py:36-46)
  // ---------------------------------------------------------------------

  /** The normalized text of `pagina_1`, blank when the key is absent. */
  function PageOneText(data: LoadedRecord): (r: string)
    ensures "pagina_1" !in data.textByPage ==> r == ""
    ensures "pagina_1" in data.textByPage ==> r == NormalizeValue(data.textByPage["pagina_1"])
  {
    if "pagina_1" in data.textByPage then NormalizeValue(data.textByPage["pagina_1"])
    else Normalize("")
  }

  /** A required text passes when its normalized form is a substring of the
      normalized page. */
  predicate Passes(t: TextValue, page: string) {
    IsInfix(NormalizeValue(t), page)
  }

  /** A value that is not a string normalizes to the empty text, which every
      page contains, so it never fails. */
  lemma NonStringPasses(page: string)
    ensures Passes(NonString, page)
  {
    EmptyIsInfix(page);
  }

  /** The loop over the required texts (authenticator/auther.py:43-46) for
      any pass test: one `MissingText` per text the test rejects, in order.
      A value that is not a string always passes. */
  function FailuresBy(texts: seq<TextValue>, passes: TextValue -> bool): (fs: seq<Failure>)
    requires passes(NonString)
    ensures |fs| <= |texts|
    ensures forall j :: 0 <= j < |fs| ==> fs[j].MissingText?
  {
    if |texts| == 0 then []
    else
      var rest := FailuresBy(texts[1..], passes);
      if passes(texts[0]) then rest
      else [MissingText(texts[0].s)] + rest
  }

  lemma {:induction false} FailuresByComplete(texts: seq<TextValue>, passes: TextValue -> bool, i: nat)
    requires passes(NonString)
    requires i < |texts| && !passes(texts[i])
    ensures texts[i].Str? && MissingText(texts[i].s) in FailuresBy(texts, passes)
  {
    if i > 0 {
      assert texts[1..][i - 1] == texts[i];
      FailuresByComplete(texts[1..], passes, i - 1);
    }
  }

  lemma {:induction false} FailuresBySound(texts: seq<TextValue>, passes: TextValue -> bool, f: Failure)
    requires passes(NonString)
    requires f in FailuresBy(texts, passes)
    ensures exists i :: 0 <= i < |texts| && texts[i] == Str(f.text) && !passes(texts[i])
  {
    var rest := FailuresBy(texts[1..], passes);
    if f in rest {
      FailuresBySound(texts[1..], passes, f);
      var i :| 0 <= i < |texts[1..]| && texts[1..][i] == Str(f.text) && !passes(texts[1..][i]);
      assert texts[i + 1] == texts[1..][i];
    } else {
      assert texts[0] == Str(f.text) && !passes(texts[0]);
    }
  }

  lemma {:induction false} FailuresByEmptyIff(texts: seq<TextValue>, passes: TextValue -> bool)
    requires passes(NonString)
    ensures FailuresBy(texts, passes) == [] <==> forall i :: 0 <= i < |texts| ==> passes(texts[i])
  {
    if |texts| > 0 {
      FailuresByEmptyIff(texts[1..], passes);
      if passes(texts[0]) {
        assert forall i :: 1 <= i < |texts| ==> texts[i] == texts[1..][i - 1];
      }
    }
  }

  lemma {:induction false} FailuresByAppend(a: seq<TextValue>, b: seq<TextValue>, passes: TextValue -> bool)
    requires passes(NonString)
    ensures FailuresBy(a + b, passes) == FailuresBy(a, passes) + FailuresBy(b, passes)
  {
    if |a| > 0 {
      assert (a + b)[1..] == a[1..] + b;
      FailuresByAppend(a[1..], b, passes);
    } else {
      assert a + b == b;
    }
  }

  /** The text failures against a normalized page 1. */
  function TextFailures(texts: seq<TextValue>, page: string): (fs: seq<Failure>)
    ensures |fs| <= |texts|
    ensures forall j :: 0 <= j < |fs| ==> fs[j].MissingText?
  {
    NonStringPasses(page);
    FailuresBy(texts, t => Passes(t, page))
  }

  /** Every failing required text is reported, and only strings can fail. */
  lemma TextFailuresComplete(texts: seq<TextValue>, page: string, i: nat)
    requires i < |texts| && !Passes(texts[i], page)
    ensures texts[i].Str? && MissingText(texts[i].s) in TextFailures(texts, page)
  {
    NonStringPasses(page);
    FailuresByComplete(texts, t => Passes(t, page), i);
  }

  /** Every reported text is a configured string that fails. */
  lemma TextFailuresSound(texts: seq<TextValue>, page: string, f: Failure)
    requires f in TextFailures(texts, page)
    ensures exists i :: 0 <= i < |texts| && texts[i] == Str(f.text) && !Passes(texts[i], page)
  {
    NonStringPasses(page);
    FailuresBySound(texts, t => Passes(t, page), f);
  }

  /** No text failure exactly when every required text passes. */
  lemma TextFailuresEmptyIff(texts: seq<TextValue>, page: string)
    ensures TextFailures(texts, page) == [] <==> forall i :: 0 <= i < |texts| ==> Passes(texts[i], page)
  {
    NonStringPasses(page);
    FailuresByEmptyIff(texts, t => Passes(t, page));
  }

  /** Failures keep the order of the configured texts. */
  lemma TextFailuresAppend(a: seq<TextValue>, b: seq<TextValue>, page: string)
    ensures TextFailures(a + b, page) == TextFailures(a, page) + TextFailures(b, page)
  {
    NonStringPasses(page);
    FailuresByAppend(a, b, t => Passes(t, page));
  }

  /** A required text that normalizes to the empty text never fails,
      whatever page 1 holds. */
  lemma BlankTextPasses(t: TextValue, page: string)
    requires NormalizeValue(t) == ""
    ensures Passes(t, page)
  {
    EmptyIsInfix(page);
  }

  /** The text part of the errors: a single `NoPageOneText` when page 1 is
      blank and texts are required, otherwise one failure per absent text. */
  function TextErrors(data: LoadedRecord, config: Config): (fs: seq<Failure>)
    ensures NoPageOneText in fs <==> PageOneText(data) == "" && |config.requiredTexts| > 0
    ensures NoPageOneText in fs ==> fs == [NoPageOneText]
    ensures forall j :: 0 <= j < |fs| ==> !fs[j].MissingImage?
  {
    var page := PageOneText(data);
    if page == "" && |config.requiredTexts| > 0 then [NoPageOneText]
    else TextFailures(config.requiredTexts, page)
  }

  // ---------------------------------------------------------------------
  // The verdict
  // ---------------------------------------------------------------------

  /** The document passes when no required hash is missing and the text
      checks raise nothing. */
  predicate IsValid(data: LoadedRecord, config: Config) {
    MissingHashes(data, config) == {} && TextErrors(data, config) == []
  }

  /** The verdict in the terms of the rules themselves: every required hash
      is carried by some image, page 1 is not blank when texts are required,
      and every required text occurs on the normalized page 1. */
  lemma ValidIff(data: LoadedRecord, config: Config)
    ensures IsValid(data, config) <==>
      && (forall h :: h in config.requiredHashes ==>
            exists i :: 0 <= i < |data.images| && data.images[i].hash == h)
      && (|config.requiredTexts| > 0 ==> PageOneText(data) != "")
      && (forall i :: 0 <= i < |config.requiredTexts| ==>
            Passes(config.requiredTexts[i], PageOneText(data)))
  {
    NoMissingIff(data, config);
    NoTextErrorIff(data, config);
  }

  /** No hash is missing exactly when every required hash is carried by
      some image. */
  lemma NoMissingIff(data: LoadedRecord, config: Config)
    ensures MissingHashes(data, config) == {} <==>
      forall h :: h in config.requiredHashes ==>
        exists i :: 0 <= i < |data.images| && data.images[i].hash == h
  {
    var m := MissingHashes(data, config);
    if m != {} {
      var h :| h in m;
      assert h in config.requiredHashes;
    }
  }

  /** The text checks raise nothing exactly when page 1 is not blank (if
      texts are required) and every required text occurs on it. */
  lemma NoTextErrorIff(data: LoadedRecord, config: Config)
    ensures TextErrors(data, config) == [] <==>
      && (|config.requiredTexts| > 0 ==> PageOneText(data) != "")
      && (forall i :: 0 <= i < |config.requiredTexts| ==>
            Passes(config.requiredTexts[i], PageOneText(data)))
  {
    TextFailuresEmptyIff(config.requiredTexts, PageOneText(data));
  }

  /** The image part of `validate_document` (authenticator/auther.py:30-32):
      one failure per missing hash, each hash once, in an unspecified order
      (Python iterates a set). */
  method ImageFailures(missing: set<string>) returns (fs: seq<Failure>)
    ensures |fs| == |missing|
    ensures forall i :: 0 <= i < |fs| ==> fs[i].MissingImage? && fs[i].hash in missing
    ensures forall h :: h in missing ==> MissingImage(h) in fs
    ensures forall i, j :: 0 <= i < j < |fs| ==> fs[i] != fs[j]
  {
    var remaining := missing;
    fs := [];
    while remaining != {}
      invariant remaining <= missing
      invariant |fs| + |remaining| == |missing|
      invariant forall i :: 0 <= i < |fs| ==> fs[i].MissingImage? && fs[i].hash in missing - remaining
      invariant forall h :: h in missing - remaining ==> MissingImage(h) in fs
      invariant forall i, j :: 0 <= i < j < |fs| ==> fs[i] != fs[j]
      decreases |remaining|
    {
      var h :| h in remaining;
      fs := fs + [MissingImage(h)];
      remaining := remaining - {h};
    }
  }

  /** `validate_document`: the image failures come first, then the text
      failures in configuration order; the document is valid exactly when
      nothing failed. */
  method Validate(data: LoadedRecord, config: Config) returns (isValid: bool, failures: seq<Failure>)
    ensures var k := |MissingHashes(data, config)|;
      && |failures| == k + |TextErrors(data, config)|
      && (forall i :: 0 <= i < k ==>
            failures[i].MissingImage? && failures[i].hash in MissingHashes(data, config))
      && (forall i, j :: 0 <= i < j < k ==> failures[i] != failures[j])
      && failures[k..] == TextErrors(data, config)
    ensures forall h :: h in MissingHashes(data, config) ==>
      MissingImage(h) in failures[..|MissingHashes(data, config)|]
    ensures isValid <==> failures == []
    ensures isValid <==> IsValid(data, config)
  {
    var imageFailures := ImageFailures(MissingHashes(data, config));
    failures := imageFailures + TextErrors(data, config);
    assert failures[..|imageFailures|] == imageFailures;
    isValid := failures == [];
  }

  /** An empty configuration accepts every record. */
  lemma EmptyConfigValid(data: LoadedRecord)
    ensures IsValid(data, Config([], []))
  {
    ValidIff(data, Config([], []));
  }

  /** Without required texts only the hashes decide, and page 1 is not
      looked at. */
  lemma HashesOnlyValidIff(data: LoadedRecord, hs: seq<string>)
    ensures IsValid(data, Config(hs, [])) <==> FoundHashes(data) >= set h | h in hs
  {
    ValidIff(data, Config(hs, []));
  }

  /** A blank page 1 rejects the document whenever texts are required,
      even when every required text is itself blank and so, once
      normalized, passes the substring test (`BlankTextPasses`). */
  lemma BlankPageRejects(data: LoadedRecord, config: Config)
    requires PageOneText(data) == ""
    requires |config.requiredTexts| > 0
    ensures TextErrors(data, config) == [NoPageOneText]
    ensures !IsValid(data, config)
  {
    var fs := TextErrors(data, config);
    assert NoPageOneText in fs;
  }

  // ---------------------------------------------------------------------
  // Consequences of the set semantics
  // ---------------------------------------------------------------------

  /** Listing a required hash twice does not add a second failure. */
  lemma DuplicateRequiredIgnored(data: LoadedRecord, hs: seq<string>, h: string, texts: seq<TextValue>)
    requires h in hs
    ensures MissingHashes(data, Config(hs + [h], texts)) == MissingHashes(data, Config(hs, texts))
  {
    assert forall x :: x in hs + [h] <==> x in hs;
  }

  /** More extracted images never add a hash failure, and unrequired
      images change nothing. */
  lemma MoreImagesFewerMissing(data: LoadedRecord, extra: seq<ImageEntry>, config: Config)
    ensures MissingHashes(LoadedRecord(data.images + extra, data.textByPage), config)
         <= MissingHashes(data, config)
  {
    var more := LoadedRecord(data.images + extra, data.textByPage);
    forall h | h in MissingHashes(more, config)
      ensures h in MissingHashes(data, config)
    {
      forall i | 0 <= i < |data.images|
        ensures data.images[i].hash != h
      {
        assert more.images[i] == data.images[i];
      }
    }
  }
}
