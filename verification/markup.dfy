/**
 * Parsed HTML, reduced to what the harvester's BeautifulSoup selections
 * reach.  An element is represented by its text strings (its
 * NavigableString descendants, in document order), from which
 * `get_text(sep, strip=True)` is computed.
 */
module Markup {
  import opened Wrappers

  /** The text strings of one element. */
  type Strings = seq<string>

  /**
   * A `tbody tr` of the survey table: the texts of its direct `td` cells, the
   * `href` of its first `a[href*="/result/"]` (None when it has no such
   * anchor), and the texts of the next sibling `tr.tw-border-none` (None when
   * there is none).
   */
  datatype Row = Row(cells: seq<Strings>, link: Option<string>, detailRow: Option<Strings>)

  /** An element searched for a `dt` and a `dd`: the texts of the first of each, if present. */
  datatype LabelBox = LabelBox(dt: Option<Strings>, dd: Option<Strings>)

  /**
   * A `dl` element, seen three ways:
   *   childDivs      `dl.find_all("div", recursive=False)`
   *   descendantDivs `dl.find_all("div", recursive=True)`
   *   childDts       each `dl.find_all("dt", recursive=False)` with its
   *                  `find_next_sibling("dd")`
   */
  datatype DefList = DefList(childDivs: seq<LabelBox>, descendantDivs: seq<LabelBox>, childDts: seq<LabelBox>)

  /** A `ul.tw-list-none > li`: the texts of its `span` descendants, in order. */
  datatype ListItem = ListItem(spans: seq<Strings>)

  /** A `div.tw-mt-6` section: the first `dl` inside it, if any. */
  datatype Section = Section(firstDl: Option<DefList>)

  /**
   * A result (detail) page: every `dl` in document order, every
   * `ul.tw-list-none > li`, and the first `div.tw-mt-6`.
   */
  datatype DetailPage = DetailPage(defLists: seq<DefList>, scoreItems: seq<ListItem>, mainSection: Option<Section>)

  /** What a GET request gives back: a status and a parsed body, or a transport error with its message. */
  datatype Response = Response(status: int, page: DetailPage) | NetworkFailure(message: string)

  /** The detail pages' server, by request URL. */
  type Server = string -> Response
}
