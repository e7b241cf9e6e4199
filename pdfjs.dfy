/** What the model takes from pdf.js and the canvas libraries, as data and
    uninterpreted functions. A `None` stands for a call that throws or rejects. */
module PdfJs {
  import opened Common
  import opened Geometry

  /** One entry of `page.getTextContent().items`. A `TextItem` has the string,
      its transform matrix and its width in PDF units; `fontSize` is
      Math.hypot(transform[0], transform[1]), the one value the model does not
      compute itself. `MarkedContent` is an entry without `str` and `transform`. */
  datatype TextContentItem =
    | TextItem(str: string, transform: Transform, width: real, fontSize: real)
    | MarkedContent

  /** A page rendered onto a canvas. `png` is canvas.toBuffer('image/png'),
      `jpeg` the blob of canvas.toBlob('image/jpeg') (absent when the browser
      gives null), `imageData(y, w, h)` the RGBA bytes of
      context.getImageData(0, y, w, h), and `crop(y, h)` the PNG of the band
      [y, y + h) copied onto a canvas of its own. */
  datatype Raster = Raster(
    png: Bytes,
    jpeg: Option<Bytes>,
    imageData: (real, real, real) -> Option<Bytes>,
    crop: (real, real) -> Option<Bytes>)

  /** A page of a loaded document: its viewport and rendering at a given
      scale, its annotations and its text content. */
  datatype PdfPage = PdfPage(
    viewport: real -> Viewport,
    render: real -> Option<Raster>,
    annotations: Option<seq<Annotation>>,
    textContent: Option<seq<TextContentItem>>)
}
