/** The two programs end to end: a record built by the extractor, written
    out and loaded by the validator, judged against a configuration. */
module Pipeline {
  import opened Text
  import opened Decimal
  import opened Document
  import opened Extractor
  import opened Validator

  /** `h` is the digest of some image of some page. */
  predicate Digested(pages: seq<PdfPage>, sha: Digest, h: string) {
    exists p, j :: 0 <= p < |pages| && 0 <= j < |pages[p].images|
      && sha(pages[p].images[j].Bytes()) == h
  }

  /** What the validator reads as page 1: the first page's text, blank
      for a document without pages. */
  function FirstPageText(pages: seq<PdfPage>): string {
    if |pages| > 0 then pages[0].text else ""
  }

  /** The two fields of an extracted record the validator depends on. */
  predicate ExtractedFrom(rec: DocumentRecord, pages: seq<PdfPage>, sha: Digest) {
    rec.textByPage == PageTexts(pages) && rec.images == AllImages(pages, sha)
  }

  /** The record `process_pdf` assembles is extracted from its pages. */
  lemma AssembleExtracted(path: string, metadata: map<string, Scalar>, pages: seq<PdfPage>, sha: Digest)
    ensures ExtractedFrom(Assemble(path, metadata, pages, sha), pages, sha)
  {
  }

  /** The validator finds exactly the digests of the document's images. */
  lemma FoundIffDigested(rec: DocumentRecord, pages: seq<PdfPage>, sha: Digest, h: string)
    requires ExtractedFrom(rec, pages, sha)
    ensures h in FoundHashes(Load(rec)) <==> Digested(pages, sha, h)
  {
    if h in FoundHashes(Load(rec)) {
      FoundIsDigested(rec, pages, sha, h);
    }
    if Digested(pages, sha, h) {
      DigestedIsFound(rec, pages, sha, h);
    }
  }

  /** A hash the validator finds is the digest of some page image. */
  lemma FoundIsDigested(rec: DocumentRecord, pages: seq<PdfPage>, sha: Digest, h: string)
    requires ExtractedFrom(rec, pages, sha)
    requires h in FoundHashes(Load(rec))
    ensures Digested(pages, sha, h)
  {
    var data := Load(rec);
    var k :| 0 <= k < |data.images| && data.images[k].hash == h;
    assert rec.images[k].hash == h;
    ImageSource(pages, sha, k);
    var p, j :| 0 <= p < |pages| && 0 <= j < |pages[p].images|
      && rec.images[k] == MakeImageRecord(p, j, pages[p].images[j], sha);
  }

  /** The digest of every page image is found by the validator. */
  lemma DigestedIsFound(rec: DocumentRecord, pages: seq<PdfPage>, sha: Digest, h: string)
    requires ExtractedFrom(rec, pages, sha)
    requires Digested(pages, sha, h)
    ensures h in FoundHashes(Load(rec))
  {
    var data := Load(rec);
    var p, j :| 0 <= p < |pages| && 0 <= j < |pages[p].images|
      && sha(pages[p].images[j].Bytes()) == h;
    ImagesPageMajor(pages, sha, p, j);
    var k := TotalImages(pages[..p]) + j;
    assert data.images[k].hash == h;
  }

  /** `pagina_1` is the label of the first page. */
  lemma FirstLabel()
    ensures PageLabel(1) == "pagina_1"
  {
    assert NatToString(1) == "1";
  }

  /** A page text survives the JSON round trip as a string. */
  lemma LoadedText(rec: DocumentRecord, key: string)
    requires key in rec.textByPage
    ensures Load(rec).textByPage[key] == Str(rec.textByPage[key])
  {
  }

  /** The validator's page 1 is the normalized text of the first page. */
  lemma ExtractedPageOne(rec: DocumentRecord, pages: seq<PdfPage>, sha: Digest)
    requires ExtractedFrom(rec, pages, sha)
    ensures PageOneText(Load(rec)) == Normalize(FirstPageText(pages))
  {
    FirstLabel();
    if |pages| > 0 {
      PageTextAt(pages, 0);
      LoadedText(rec, "pagina_1");
    } else {
      assert Normalize("") == "";
    }
  }

  /** The hash rules hold for an extracted document exactly when every
      required hash is the digest of one of its images. */
  lemma ExtractedHashesIff(rec: DocumentRecord, pages: seq<PdfPage>, sha: Digest, config: Config)
    requires ExtractedFrom(rec, pages, sha)
    ensures MissingHashes(Load(rec), config) == {} <==>
      forall h :: h in config.requiredHashes ==> Digested(pages, sha, h)
  {
    NoMissingIff(Load(rec), config);
    forall h | h in config.requiredHashes
      ensures h in FoundHashes(Load(rec)) <==> Digested(pages, sha, h)
    {
      FoundIffDigested(rec, pages, sha, h);
    }
  }

  /** The text rules hold for an extracted document exactly when its first
      page is not blank (if texts are required) and holds every required
      text once both are normalized. */
  lemma ExtractedTextsIff(rec: DocumentRecord, pages: seq<PdfPage>, sha: Digest, config: Config)
    requires ExtractedFrom(rec, pages, sha)
    ensures TextErrors(Load(rec), config) == [] <==>
      && (|config.requiredTexts| > 0 ==> Normalize(FirstPageText(pages)) != "")
      && (forall i :: 0 <= i < |config.requiredTexts| ==>
            Passes(config.requiredTexts[i], Normalize(FirstPageText(pages))))
  {
    ExtractedPageOne(rec, pages, sha);
    NoTextErrorIff(Load(rec), config);
  }

  /** A document `process_pdf` extracted passes exactly when every required
      hash is the digest of one of its images, its first page is not blank
      when texts are required, and every required text occurs in its first
      page once both are normalized. */
  lemma ExtractedValidIff(path: string, metadata: map<string, Scalar>, pages: seq<PdfPage>, sha: Digest, config: Config)
    ensures IsValid(Load(Assemble(path, metadata, pages, sha)), config) <==>
      && (forall h :: h in config.requiredHashes ==> Digested(pages, sha, h))
      && (|config.requiredTexts| > 0 ==> Normalize(FirstPageText(pages)) != "")
      && (forall i :: 0 <= i < |config.requiredTexts| ==>
            Passes(config.requiredTexts[i], Normalize(FirstPageText(pages))))
  {
    var rec := Assemble(path, metadata, pages, sha);
    AssembleExtracted(path, metadata, pages, sha);
    ExtractedHashesIff(rec, pages, sha, config);
    ExtractedTextsIff(rec, pages, sha, config);
  }
}
