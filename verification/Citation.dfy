/** A cited source and a retrieval signal: candidates paired with raw scores. */
module Citation {
  import opened Text

  datatype Source = Source(title: string, section: string, url: Option<string>)

  datatype Row = Row(raw: real, source: Source)

  type Signal = seq<Row>

  datatype Key = Key(title: string, section: string)

  function KeyOf(s: Source): Key { Key(s.title, s.section) }
}
