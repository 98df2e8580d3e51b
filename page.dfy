/** The parts of a loaded product page that the extractors read, in place of a
    queryable markup tree. Every text is what the tree's `text()` gives (the
    empty string when nothing matches), every attribute what `attr()` gives
    (`None` when the element or the attribute is missing). */
module Page {
  import opened Optional

  /** One `tr` of a specification table: the text of its `td.spl_heading`
      cell and of its `td.spl_text` cell. */
  datatype Row = Row(heading: string, text: string)

  /** One `tbody` element: its `id` attribute (empty when it has none), the
      text of the first `h2.key-spec-ttl` inside its closest enclosing
      `section` (`None` when there is no such section), and its rows. */
  datatype TableBody = TableBody(id: string, header: Option<string>, rows: seq<Row>)

  /** One `img` element: its `src`, `data-src` and `alt` attributes. */
  datatype Image = Image(src: Option<string>, dataSrc: Option<string>, alt: Option<string>)

  datatype Document = Document(
    /** text of the first `h1.prd_title, h1` */
    title: string,
    /** `data-content` attribute of `#release-cal` */
    releaseCalendar: Option<string>,
    /** text of the first `.pricesection_cntr, .storeprices` */
    priceBlock: string,
    /** every `tbody`, in document order */
    tableBodies: seq<TableBody>,
    /** the matches of `.sliderImage, img[alt*="Galaxy"], img[alt*="iPhone"]`, in document order */
    galleryCandidates: seq<Image>,
    /** every `img`, in document order */
    allImages: seq<Image>)
}
