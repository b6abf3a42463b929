/** What the archiver reads from the browser: the parsed article document,
    the rows of a listing page and its pagination links. Each record keeps
    only the attributes and texts the archiver looks at. */
module Dom {
  import opened Wrappers

  /** An `<img>` element. */
  datatype Img = Img(src: Option<string>)

  /** A `<link rel="stylesheet">` element. */
  datatype StyleLink = StyleLink(href: Option<string>)

  /** A `<video>` element: its own `src` and the `src` of each `<source>`
      child, in document order. */
  datatype Video = Video(src: Option<string>, sources: seq<Option<string>>)

  /** A rendered article page, as the selectors `img`,
      `link[rel='stylesheet']` and `video` list its elements (document
      order within each kind), together with the pagination the page
      shows. Every other part of the markup is carried through unchanged
      and is not represented. */
  datatype Document = Document(images: seq<Img>, stylesheets: seq<StyleLink>, videos: seq<Video>, pagination: Pagination)

  /** The `.vcol.col-title` cell of a listing row: its whole visible text,
      and the text of its `.title` child when that child exists. */
  datatype TitleCell = TitleCell(text: string, title: Option<string>)

  /** One `a.vrow.column` row of a listing page. `notice` is whether the
      row also has the `notice` class; `titleCell` is absent when the row
      has no `.vcol.col-title` element; `href` is the row's link. */
  datatype Row = Row(notice: bool, titleCell: Option<TitleCell>, href: string)

  /** An admissible article of a listing page. */
  datatype ArticleRef = ArticleRef(link: string, title: string)

  /** One `li.page-item a.page-link` control: its visible text, the class
      attribute of each `span` inside it (a missing attribute read as ""),
      and its `href`. */
  datatype PageLink = PageLink(text: string, spanClasses: seq<string>, href: Option<string>)

  /** The pagination as the browser shows it: whether `li.page-item`
      elements appeared within the five-second wait, and the controls. */
  datatype Pagination = Pagination(appeared: bool, links: seq<PageLink>)

  /** One listing step as the browser presents it: the rows of the listing
      and the pagination found afterwards. */
  datatype ListingPage = ListingPage(rows: seq<Row>, pagination: Pagination)
}
