/** Record assembly of the extractor, `process_pdf` (jsonCreator/main.py:11-108),
    over an abstract parsed PDF. The PDF parser, the raster decoder, the
    barcode decoder and SHA-256 are not modelled: what they return for each
    page and image is part of the input, and the digest is a parameter. */
module Extractor {
  import opened Wrappers
  import opened Decimal
  import opened Document

  // ---------------------------------------------------------------------
  // What the external libraries hand to the extractor
  // ---------------------------------------------------------------------

  /** A barcode symbol: its type name and its payload, `None` when the
      payload bytes are not valid UTF-8. */
  datatype Symbol = Symbol(kind: string, data: Option<string>)

  /** The outcome of opening the raw bytes as a raster and scanning it for
      barcodes: any exception there (unknown format, decoder error) is
      `Unreadable`. */
  datatype Raster = Unreadable | Raster(width: nat, height: nat, symbols: seq<Symbol>)

  /** The outcome of the placement-box lookup: a box, or the `ValueError`
      the lookup raises when it cannot place the image. */
  datatype BboxOutcome = BboxFound(box: Box) | BboxValueError

  /** The mapping the PDF library returns for one image; it always carries
      the raw bytes under `"image"` and the format extension under `"ext"`. */
  predicate IsExtractedImage(m: map<string, Scalar>) {
    && "image" in m && m["image"].BytesValue?
    && "ext" in m && m["ext"].StrValue?
  }

  type ExtractedImage = m: map<string, Scalar> | IsExtractedImage(m)
    witness map["image" := BytesValue([]), "ext" := StrValue("png")]

  datatype PdfImage = PdfImage(extracted: ExtractedImage, raster: Raster, bbox: BboxOutcome) {
    function Bytes(): seq<byte> { extracted["image"].b }
    function Ext(): string { extracted["ext"].s }
  }

  datatype PdfPage = PdfPage(text: string, images: seq<PdfImage>)

  /** The source document: unopenable, or its metadata and pages. */
  datatype PdfSource = Unopenable | Opened(metadata: map<string, Scalar>, pages: seq<PdfPage>)

  /** The hash algorithm: `hashlib.sha256(b).hexdigest()`. */
  type Digest = seq<byte> -> string

  // ---------------------------------------------------------------------
  // Per-image fields
  // ---------------------------------------------------------------------

  const QrKind: string := "QRCODE"

  /** Position of the first QR symbol in the decoder's list (the scan stops
      at it), or the list length when there is none. */
  function FirstQr(symbols: seq<Symbol>): (k: nat)
    ensures k <= |symbols|
    ensures forall j :: 0 <= j < k ==> symbols[j].kind != QrKind
    ensures k < |symbols| ==> symbols[k].kind == QrKind
  {
    if |symbols| == 0 then 0
    else if symbols[0].kind == QrKind then 0
    else 1 + FirstQr(symbols[1..])
  }

  /** The three fields the decode block determines. */
  datatype Inspection = Inspection(isQr: bool, qrData: Option<string>, dims: Dimensions)

  /** The decode block (jsonCreator/main.py:54-67). `es_qr` is set before
      the payload is decoded, so an undecodable QR payload leaves
      `es_qr = true`, `datos_qr = None` and, through the exception handler,
      zero dimensions. */
  function Inspect(raster: Raster): (r: Inspection)
    ensures raster.Unreadable? ==> !r.isQr && r.qrData.None? && r.dims == Dimensions(0, 0)
    ensures raster.Raster? ==>
      var k := FirstQr(raster.symbols);
      && (r.isQr <==> k < |raster.symbols|)
      && (r.isQr ==> r.qrData == raster.symbols[k].data)
      && (!r.isQr ==> r.qrData.None?)
      && r.dims == (if r.isQr && r.qrData.None? then Dimensions(0, 0)
                    else Dimensions(raster.width, raster.height))
  {
    match raster
    case Unreadable => Inspection(false, None, Dimensions(0, 0))
    case Raster(w, h, symbols) =>
      var k := FirstQr(symbols);
      if k == |symbols| then Inspection(false, None, Dimensions(w, h))
      else match symbols[k].data
        case Some(payload) => Inspection(true, Some(payload), Dimensions(w, h))
        case None => Inspection(true, None, Dimensions(0, 0))
  }

  /** Python's `s[:n]`. */
  function Take(s: string, n: nat): (r: string)
    ensures |r| == if |s| <= n then |s| else n
    ensures r == s[..|r|]
  {
    if |s| <= n then s else s[..n]
  }

  /** `f"pagina_{n}"`. */
  function PageLabel(n: nat): string {
    "pagina_" + NatToString(n)
  }

  /** `nombre_imagen` (jsonCreator/main.py:70): page label, 1-based image
      index, the first eight characters of the digest and the extension. */
  function ImageFileName(pageNum: nat, index: nat, hash: string, ext: string): string {
    PageLabel(pageNum) + "_img_" + NatToString(index + 1) + "_" + Take(hash, 8) + "." + ext
  }

  /** `posicion` (jsonCreator/main.py:76-80). */
  function PositionOf(bbox: BboxOutcome): (p: Position)
    ensures p == NotAvailable <==> bbox.BboxValueError?
    ensures bbox.BboxFound? ==> p.box == bbox.box
  {
    match bbox
    case BboxFound(b) => Placed(b)
    case BboxValueError => NotAvailable
  }

  /** `metadata_interna` (jsonCreator/main.py:92): the extractor's mapping
      with the raw-bytes entry removed and nothing else changed. */
  function InternalMeta(m: map<string, Scalar>): (r: map<string, Scalar>)
    ensures r.Keys == m.Keys - {"image"}
    ensures forall k :: k in r ==> r[k] == m[k]
  {
    m - {"image"}
  }

  /** One assembled `imagenes` entry; `pageIndex` and `index` are the
      0-based loop counters. */
  function MakeImageRecord(pageIndex: nat, index: nat, img: PdfImage, sha: Digest): (r: ImageRecord)
    ensures r.page == pageIndex + 1
    ensures r.hash == sha(img.Bytes()) && r.sizeBytes == |img.Bytes()|
    ensures r.name == ImageFileName(pageIndex + 1, index, r.hash, img.Ext())
    ensures r.internalMeta.Keys == img.extracted.Keys - {"image"}
    ensures r.internalMeta == InternalMeta(img.extracted)
    ensures (r.isQr, r.qrData, r.dims) == (Inspect(img.raster).isQr, Inspect(img.raster).qrData, Inspect(img.raster).dims)
    ensures r.position == PositionOf(img.bbox)
  {
    var hash := sha(img.Bytes());
    var ins := Inspect(img.raster);
    ImageRecord(
      ImageFileName(pageIndex + 1, index, hash, img.Ext()),
      pageIndex + 1,
      hash,
      ins.isQr,
      ins.qrData,
      PositionOf(img.bbox),
      |img.Bytes()|,
      ins.dims,
      InternalMeta(img.extracted))
  }

  // ---------------------------------------------------------------------
  // The whole record
  // ---------------------------------------------------------------------

  /** The records of one page's images, in enumeration order. */
  function PageImages(pageIndex: nat, imgs: seq<PdfImage>, sha: Digest): seq<ImageRecord> {
    seq(|imgs|, j requires 0 <= j < |imgs| => MakeImageRecord(pageIndex, j, imgs[j], sha))
  }

  /** All image records, page after page. */
  function AllImages(pages: seq<PdfPage>, sha: Digest): seq<ImageRecord> {
    if |pages| == 0 then []
    else AllImages(pages[..|pages| - 1], sha) + PageImages(|pages| - 1, pages[|pages| - 1].images, sha)
  }

  /** Number of images over all pages. */
  function TotalImages(pages: seq<PdfPage>): nat {
    if |pages| == 0 then 0
    else TotalImages(pages[..|pages| - 1]) + |pages[|pages| - 1].images|
  }

  /** `texto_por_pagina` after the first `|pages|` pages. */
  function PageTexts(pages: seq<PdfPage>): map<string, string> {
    if |pages| == 0 then map[]
    else PageTexts(pages[..|pages| - 1])[PageLabel(|pages|) := pages[|pages| - 1].text]
  }

  /** `os.path.basename` on a POSIX path: what follows the last `/`. */
  function Basename(path: string): (r: string)
    ensures '/' !in r
    ensures |r| <= |path| && r == path[|path| - |r|..]
    ensures |r| < |path| ==> path[|path| - |r| - 1] == '/'
  {
    if |path| == 0 || path[|path| - 1] == '/' then ""
    else Basename(path[..|path| - 1]) + [path[|path| - 1]]
  }

  /** The record `process_pdf` writes for an opened document. */
  function Assemble(path: string, metadata: map<string, Scalar>, pages: seq<PdfPage>, sha: Digest): (r: DocumentRecord)
    ensures r.imageCount == |r.images|
  {
    var images := AllImages(pages, sha);
    DocumentRecord(Basename(path), path, metadata, PageTexts(pages), |images|, images)
  }

  /** `process_pdf` (jsonCreator/main.py:11-108) with the file writes left
      out: `None` when the document cannot be opened, otherwise the record
      built page by page. */
  method ProcessPdf(path: string, source: PdfSource, sha: Digest) returns (r: Option<DocumentRecord>)
    ensures r.None? <==> source.Unopenable?
    ensures r.Some? ==> r.value == Assemble(path, source.metadata, source.pages, sha)
    ensures r.Some? ==> r.value.imageCount == |r.value.images| == TotalImages(source.pages)
  {
    if source.Unopenable? {
      return None;
    }
    var pages := source.pages;
    var texts: map<string, string> := map[];
    var images: seq<ImageRecord> := [];
    for p := 0 to |pages|
      invariant texts == PageTexts(pages[..p])
      invariant images == AllImages(pages[..p], sha)
    {
      texts := texts[PageLabel(p + 1) := pages[p].text];
      var records := ProcessPage(p, pages[p].images, sha);
      images := images + records;
      assert pages[..p + 1][..p] == pages[..p];
    }
    assert pages[..|pages|] == pages;
    AllImagesCount(pages, sha);
    r := Some(DocumentRecord(Basename(path), path, source.metadata, texts, |images|, images));
  }

  /** The inner loop of `process_pdf` (jsonCreator/main.py:46-94): one
      record per image of the page, appended in enumeration order. */
  method ProcessPage(pageIndex: nat, imgs: seq<PdfImage>, sha: Digest) returns (records: seq<ImageRecord>)
    ensures |records| == |imgs|
    ensures forall j :: 0 <= j < |imgs| ==> records[j] == MakeImageRecord(pageIndex, j, imgs[j], sha)
  {
    records := [];
    for j := 0 to |imgs|
      invariant |records| == j
      invariant forall i :: 0 <= i < j ==> records[i] == MakeImageRecord(pageIndex, i, imgs[i], sha)
    {
      records := records + [MakeImageRecord(pageIndex, j, imgs[j], sha)];
    }
  }

  // ---------------------------------------------------------------------
  // Shape of the record
  // ---------------------------------------------------------------------

  /** `cantidad_imagenes` is the number of images over all pages. */
  lemma {:induction false} AllImagesCount(pages: seq<PdfPage>, sha: Digest)
    ensures |AllImages(pages, sha)| == TotalImages(pages)
  {
    if |pages| > 0 {
      AllImagesCount(pages[..|pages| - 1], sha);
    }
  }

  /** Distinct page numbers give distinct labels. */
  lemma PageLabelInjective(a: nat, b: nat)
    requires PageLabel(a) == PageLabel(b)
    ensures a == b
  {
    assert PageLabel(a)[7..] == NatToString(a);
    assert PageLabel(b)[7..] == NatToString(b);
    NatToStringInjective(a, b);
  }

  /** `texto_por_pagina` holds exactly the labels `pagina_1` .. `pagina_n`. */
  lemma {:induction false} PageTextsKeys(pages: seq<PdfPage>)
    ensures PageTexts(pages).Keys == set k | 1 <= k <= |pages| :: PageLabel(k)
  {
    if |pages| > 0 {
      var n := |pages|;
      PageTextsKeys(pages[..n - 1]);
      assert (set k | 1 <= k <= n :: PageLabel(k))
          == (set k | 1 <= k <= n - 1 :: PageLabel(k)) + {PageLabel(n)};
    }
  }

  /** Label `pagina_{i+1}` holds the text of the page at index `i`. */
  lemma {:induction false} PageTextAt(pages: seq<PdfPage>, i: nat)
    requires i < |pages|
    ensures PageLabel(i + 1) in PageTexts(pages)
    ensures PageTexts(pages)[PageLabel(i + 1)] == pages[i].text
  {
    var n := |pages|;
    if i < n - 1 {
      var pre := pages[..n - 1];
      PageTextAt(pre, i);
      if PageLabel(i + 1) == PageLabel(n) {
        PageLabelInjective(i + 1, n);
      }
    }
  }

  /** Images are stored page-major: the `j`-th image of the page at index
      `p` sits right after the images of all earlier pages. */
  lemma {:induction false} ImagesPageMajor(pages: seq<PdfPage>, sha: Digest, p: nat, j: nat)
    requires p < |pages| && j < |pages[p].images|
    ensures TotalImages(pages[..p]) + j < |AllImages(pages, sha)|
    ensures AllImages(pages, sha)[TotalImages(pages[..p]) + j]
         == MakeImageRecord(p, j, pages[p].images[j], sha)
  {
    var n := |pages|;
    var pre := pages[..n - 1];
    AllImagesCount(pre, sha);
    if p == n - 1 {
      assert pages[..p] == pre;
    } else {
      ImagesPageMajor(pre, sha, p, j);
      assert pre[..p] == pages[..p] && pre[p] == pages[p];
    }
  }

  /** Every stored image comes from some page's image list. */
  lemma {:induction false} ImageSource(pages: seq<PdfPage>, sha: Digest, k: nat)
    requires k < |AllImages(pages, sha)|
    ensures exists p, j :: (0 <= p < |pages| && 0 <= j < |pages[p].images|
      && AllImages(pages, sha)[k] == MakeImageRecord(p, j, pages[p].images[j], sha))
  {
    var n := |pages|;
    var pre := pages[..n - 1];
    var prev := AllImages(pre, sha);
    if k < |prev| {
      ImageSource(pre, sha, k);
      var p, j :| 0 <= p < |pre| && 0 <= j < |pre[p].images|
        && prev[k] == MakeImageRecord(p, j, pre[p].images[j], sha);
      assert pre[p] == pages[p];
      assert AllImages(pages, sha)[k] == prev[k];
    } else {
      var j := k - |prev|;
      assert AllImages(pages, sha)[k] == MakeImageRecord(n - 1, j, pages[n - 1].images[j], sha);
    }
  }

  /** Every record of the page at index `p` carries page number `p + 1`. */
  lemma PageImagesNumbered(p: nat, imgs: seq<PdfImage>, sha: Digest)
    ensures forall j :: 0 <= j < |imgs| ==> PageImages(p, imgs, sha)[j].page == p + 1
  {
  }

  /** Page numbers along `imagenes` stay within `1 .. n` and never
      decrease. */
  lemma {:induction false} ImagePagesOrdered(pages: seq<PdfPage>, sha: Digest)
    ensures forall a :: 0 <= a < |AllImages(pages, sha)| ==> 1 <= AllImages(pages, sha)[a].page <= |pages|
    ensures forall a, b :: 0 <= a <= b < |AllImages(pages, sha)| ==>
      AllImages(pages, sha)[a].page <= AllImages(pages, sha)[b].page
  {
    if |pages| > 0 {
      var n := |pages|;
      var pre := pages[..n - 1];
      var prev := AllImages(pre, sha);
      var last := PageImages(n - 1, pages[n - 1].images, sha);
      var imgs := AllImages(pages, sha);
      ImagePagesOrdered(pre, sha);
      PageImagesNumbered(n - 1, pages[n - 1].images, sha);
      assert imgs == prev + last;
      forall a | 0 <= a < |imgs|
        ensures 1 <= imgs[a].page <= n
      {
        if a < |prev| {
          assert imgs[a] == prev[a];
        } else {
          assert imgs[a] == last[a - |prev|];
        }
      }
      forall a, b | 0 <= a <= b < |imgs|
        ensures imgs[a].page <= imgs[b].page
      {
        if b < |prev| {
          assert imgs[a] == prev[a] && imgs[b] == prev[b];
        } else if a < |prev| {
          assert imgs[a] == prev[a] && imgs[b] == last[b - |prev|];
        } else {
          assert imgs[a] == last[a - |prev|] && imgs[b] == last[b - |prev|];
        }
      }
    }
  }

  /** Numerals never contain `_`, so a numeral followed by `_` can be cut
      off unambiguously. */
  lemma NumeralThenUnderscore(a: string, x: string, b: string, y: string)
    requires IsCanonical(a) && IsCanonical(b)
    requires a + "_" + x == b + "_" + y
    ensures a == b && x == y
  {
    var s := a + "_" + x;
    assert s[|a|] == '_';
    assert (b + "_" + y)[|b|] == '_';
    assert |a| == |b|;
    assert a == s[..|a|] && b == s[..|b|];
    assert x == s[|a| + 1..] && y == s[|b| + 1..];
  }

  /** What follows `pagina_` in an image file name. */
  lemma ImageFileNameTail(p: nat, i: nat, h: string, e: string)
    ensures ImageFileName(p, i, h, e)[7..]
         == NatToString(p) + "_" + ("img_" + NatToString(i + 1) + "_" + (Take(h, 8) + "." + e))
  {
  }

  /** What follows `img_` in the tail of an image file name. */
  lemma ImageTail(i: nat, t: string)
    ensures ("img_" + NatToString(i + 1) + "_" + t)[4..] == NatToString(i + 1) + "_" + t
  {
  }

  /** Distinct images of one document are saved under distinct file names:
      the name determines the page number and the image index. */
  lemma ImageNamesDistinct(p1: nat, i1: nat, h1: string, e1: string, p2: nat, i2: nat, h2: string, e2: string)
    requires ImageFileName(p1, i1, h1, e1) == ImageFileName(p2, i2, h2, e2)
    ensures p1 == p2 && i1 == i2
  {
    var t1 := Take(h1, 8) + "." + e1;
    var t2 := Take(h2, 8) + "." + e2;
    var r1 := "img_" + NatToString(i1 + 1) + "_" + t1;
    var r2 := "img_" + NatToString(i2 + 1) + "_" + t2;
    ImageFileNameTail(p1, i1, h1, e1);
    ImageFileNameTail(p2, i2, h2, e2);
    NumeralThenUnderscore(NatToString(p1), r1, NatToString(p2), r2);
    NatToStringInjective(p1, p2);
    ImageTail(i1, t1);
    ImageTail(i2, t2);
    NumeralThenUnderscore(NatToString(i1 + 1), t1, NatToString(i2 + 1), t2);
    NatToStringInjective(i1 + 1, i2 + 1);
  }
}
