/** The data model shared by the server pipeline and the browser editor
    (src/types.ts and the server's LinkInfo in server/lib/pdf-converter.ts). */
module Types {
  import opened Common

  /** A clickable rectangle in some pixel frame. The server's variant also
      carries the 0-based page it was found on; on the client it is absent. */
  datatype LinkInfo = LinkInfo(url: string, x: real, y: real, width: real, height: real, pageIndex: Option<int>)

  datatype BlockType = TextType | ImageType | PlaceholderType | HtmlType | PdfType

  /** A block as the browser holds it: a JavaScript object whose optional
      properties are the `Option` fields (which ones a type uses is in src/types.ts). */
  datatype Block = Block(
    id: string,
    kind: BlockType,
    content: Option<string>,
    src: Option<string>,
    alt: Option<string>,
    link: Option<string>,
    links: Option<seq<LinkInfo>>,
    width: Option<real>,
    height: Option<real>,
    pageIndex: Option<int>)

  /** `Partial<Block>`: the properties an update object carries. */
  datatype Patch = Patch(
    id: Option<string>,
    kind: Option<BlockType>,
    content: Option<string>,
    src: Option<string>,
    alt: Option<string>,
    link: Option<string>,
    links: Option<seq<LinkInfo>>,
    width: Option<real>,
    height: Option<real>,
    pageIndex: Option<int>)

  function Override<T>(current: T, update: Option<T>): T {
    if update.Some? then update.value else current
  }

  function OverrideOpt<T>(current: Option<T>, update: Option<T>): Option<T> {
    if update.Some? then update else current
  }

  /** `{ ...b, ...updates }`: every property the update carries wins. */
  function Merge(b: Block, p: Patch): (r: Block)
    ensures p.id.None? ==> r.id == b.id
    ensures p == Patch(None, None, None, None, None, None, None, None, None, None) ==> r == b
  {
    Block(
      Override(b.id, p.id), Override(b.kind, p.kind),
      OverrideOpt(b.content, p.content), OverrideOpt(b.src, p.src),
      OverrideOpt(b.alt, p.alt), OverrideOpt(b.link, p.link),
      OverrideOpt(b.links, p.links), OverrideOpt(b.width, p.width),
      OverrideOpt(b.height, p.height), OverrideOpt(b.pageIndex, p.pageIndex))
  }

  /** A notification of the toast context: its text and its kind. */
  datatype ToastKind = SuccessToast | ErrorToast

  datatype Toast = Toast(message: string, kind: ToastKind)
}
