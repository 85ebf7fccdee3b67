/** The records that flow from the extractor (jsonCreator/main.py) to the
    validator (authenticator/auther.py), and the validator's view of a
    record after it has been written to JSON and loaded back. */
module Document {
  import opened Wrappers
  import opened Text

  newtype byte = b: int | 0 <= b < 256

  /** A value of an open metadata mapping (PDF metadata, image-extractor
      fields), kept verbatim. */
  datatype Scalar = StrValue(s: string) | IntValue(i: int) | BytesValue(b: seq<byte>) | NoneValue

  /** A placement box in page coordinates. */
  datatype Box = Box(x0: real, y0: real, x1: real, y1: real)

  /** `posicion`: a box, or the `"No disponible"` sentinel, which is a
      different constructor and so never equal to any box, the all-zero box
      included. */
  datatype Position = Placed(box: Box) | NotAvailable

  /** `dimensiones`: `{ancho, alto}`. */
  datatype Dimensions = Dimensions(width: nat, height: nat)

  /** One entry of `imagenes` (jsonCreator/main.py:83-93). */
  datatype ImageRecord = ImageRecord(
    name: string,                      // nombre_imagen
    page: nat,                         // pagina, 1-indexed
    hash: string,                      // hash_sha256
    isQr: bool,                        // es_qr
    qrData: Option<string>,            // datos_qr
    position: Position,                // posicion
    sizeBytes: nat,                    // tamano_bytes
    dims: Dimensions,                  // dimensiones
    internalMeta: map<string, Scalar>  // metadata_interna
  )

  /** The extracted record (jsonCreator/main.py:23-30). */
  datatype DocumentRecord = DocumentRecord(
    fileName: string,                  // nombre_archivo
    fullPath: string,                  // ruta_completa
    metadata: map<string, Scalar>,     // metadata_pdf
    textByPage: map<string, string>,   // texto_por_pagina
    imageCount: nat,                   // cantidad_imagenes
    images: seq<ImageRecord>           // imagenes
  )

  /** The fields of one `imagenes` entry that the validator reads. */
  datatype ImageEntry = ImageEntry(hash: string, isQr: bool, qrData: Option<string>)

  /** The parts of a loaded record that the validator reads. A key absent
      from the JSON file is read through `.get` with an empty default and is
      represented here by the empty collection. Page texts are arbitrary
      JSON values once loaded. */
  datatype LoadedRecord = LoadedRecord(images: seq<ImageEntry>, textByPage: map<string, TextValue>)

  /** What the validator sees of an extracted record after the JSON round
      trip: every field it reads, unchanged. */
  function Load(rec: DocumentRecord): (r: LoadedRecord)
    ensures |r.images| == |rec.images|
    ensures forall i :: 0 <= i < |rec.images| ==> r.images[i].hash == rec.images[i].hash
    ensures r.textByPage.Keys == rec.textByPage.Keys
  {
    LoadedRecord(
      seq(|rec.images|, i requires 0 <= i < |rec.images| =>
        ImageEntry(rec.images[i].hash, rec.images[i].isQr, rec.images[i].qrData)),
      map k | k in rec.textByPage :: Str(rec.textByPage[k]))
  }
}
