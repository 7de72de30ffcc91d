/** The little of an HTML document the scraper reads, after tag selection:
    table cells with their text, their attributes and the first link inside
    them. Selecting the cells (by tag, class or id) is not modelled; the
    operations receive the selected cells in document order. */
module Html {
  import opened Runtime

  /** An `<a>` tag: its text and attributes (`href`, ...). */
  datatype Anchor = Anchor(text: string, attrs: map<string, string>)

  /** A `<td>` cell: its text (`.text`), its attributes (`cell['data-stat']`)
      and the first link in it (`.find('a')`, None when there is none). */
  datatype Td = Td(text: string, attrs: map<string, string>, link: Option<Anchor>)

  /** The `data-stat` attribute, None where `cell['data-stat']` raises KeyError. */
  function DataStat(cell: Td): Option<string>
  {
    if "data-stat" in cell.attrs then Some(cell.attrs["data-stat"]) else None
  }
}
