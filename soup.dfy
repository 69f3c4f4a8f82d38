/** What the converter sees of a parsed Keep note. BeautifulSoup's parser
    and tree search are replaced by these records: a note has an optional
    title `div`, and optional `note-content` and `content` containers that
    hold a flat sequence of nodes. */
module Soup {
  import opened Wrappers
  import opened PyStr

  /** `tag.get_text(strip=True)` over the text strings of a tag, in document
      order: each string is stripped of whitespace, empty ones are skipped
      and the rest are joined with no separator. The result never starts or
      ends with whitespace, and it is empty exactly when every string is. */
  function GetText(strings: seq<string>): (r: string)
    ensures r == [] || (!IsSpace(r[0]) && !IsSpace(r[|r| - 1]))
    ensures r == [] <==> forall i :: 0 <= i < |strings| ==> Strip(strings[i], Whitespace) == []
  {
    if strings == [] then []
    else
      var head := Strip(strings[0], Whitespace);
      var tail := GetText(strings[1..]);
      assert forall i :: 1 <= i < |strings| ==> strings[1..][i - 1] == strings[i];
      head + tail
  }

  /** A checkbox `input` found in a list item: whether it carries the
      `checked` attribute, and the text strings of the `span` that follows it
      as a sibling, when there is one. */
  datatype Checkbox = Checkbox(checked: bool, span: Option<seq<string>>)

  /** A node of a content container. A list item may hold a checkbox;
      `markup` stands for whatever else the renderer sees of a node. A
      paragraph is what a rewritten list item becomes. */
  datatype Node =
    | ListItem(checkbox: Option<Checkbox>, markup: string)
    | Paragraph(text: string)
    | Other(markup: string)

  /** A parsed note: the strings of its first `div` of class `title`, and its
      first `div` of class `note-content` and of class `content`. A found tag
      is always truthy, so only presence matters. */
  datatype Document = Document(
    title: Option<seq<string>>,
    noteContent: Option<seq<Node>>,
    content: Option<seq<Node>>)
}
