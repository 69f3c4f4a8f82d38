/** The checkbox pass over a note's content container: every list item that
    holds a checkbox is replaced, where it stands, by a paragraph holding a
    Markdown task-list line. */
module Checklist {
  import opened Wrappers
  import opened Soup

  const CHECKED_PREFIX := "- [x] "
  const UNCHECKED_PREFIX := "- [ ] "

  /** The label of a task: the stripped text of the checkbox's next `span`
      sibling, or empty when there is no such span. */
  function Label(cb: Checkbox): string {
    match cb.span
    case Some(strings) => GetText(strings)
    case None => ""
  }

  function Prefix(checked: bool): string {
    if checked then CHECKED_PREFIX else UNCHECKED_PREFIX
  }

  /** The text of the paragraph that replaces a list item with checkbox `cb`:
      the prefix of its state, then its label. It reads back as both. */
  function TaskLine(cb: Checkbox): (line: string)
    ensures ParseTaskLine(line) == Some((cb.checked, Label(cb)))
  {
    var line := Prefix(cb.checked) + Label(cb);
    assert line[..6] == Prefix(cb.checked);
    assert line[6..] == Label(cb);
    line
  }

  /** Reads a task-list line back: whether it is checked, and its label. */
  function ParseTaskLine(line: string): (r: Option<(bool, string)>)
    ensures r.Some? ==> line == Prefix(r.value.0) + r.value.1
  {
    if |line| >= 6 && line[..6] == CHECKED_PREFIX then Some((true, line[6..]))
    else if |line| >= 6 && line[..6] == UNCHECKED_PREFIX then Some((false, line[6..]))
    else None
  }

  predicate HasCheckbox(n: Node) {
    n.ListItem? && n.checkbox.Some?
  }

  /** One step of the pass: a list item with a checkbox becomes a paragraph
      holding its task line; any other node is left as it is. No checkbox
      is left, and the paragraph reads back as the checkbox's state and
      label. */
  function Rewrite(n: Node): (r: Node)
    ensures !HasCheckbox(r)
    ensures !HasCheckbox(n) ==> r == n
    ensures HasCheckbox(n) ==>
              r.Paragraph? && ParseTaskLine(r.text) == Some((n.checkbox.value.checked, Label(n.checkbox.value)))
  {
    if HasCheckbox(n) then Paragraph(TaskLine(n.checkbox.value)) else n
  }

  /** The container after the whole pass. */
  function Normalized(s: seq<Node>): (r: seq<Node>)
    ensures |r| == |s|
    ensures forall i :: 0 <= i < |s| ==> r[i] == Rewrite(s[i])
  {
    if s == [] then [] else [Rewrite(s[0])] + Normalized(s[1..])
  }

  /** The container after the pass has rewritten its first `k` nodes. */
  function RewrittenPrefix(s: seq<Node>, k: nat): (r: seq<Node>)
    requires k <= |s|
    ensures |r| == |s|
    ensures forall i :: 0 <= i < k ==> r[i] == Rewrite(s[i])
    ensures forall i :: k <= i < |s| ==> r[i] == s[i]
  {
    Normalized(s[..k]) + s[k..]
  }

  /** The rewrite keeps the number and order of nodes: every node with a
      checkbox becomes, at the same position, a paragraph whose text reads
      back as that checkbox's state and label, and every other node is
      unchanged. */
  lemma NormalizedNodes(s: seq<Node>)
    ensures |Normalized(s)| == |s|
    ensures forall i :: 0 <= i < |s| && HasCheckbox(s[i]) ==>
              Normalized(s)[i].Paragraph?
              && ParseTaskLine(Normalized(s)[i].text)
                 == Some((s[i].checkbox.value.checked, Label(s[i].checkbox.value)))
    ensures forall i :: 0 <= i < |s| && !HasCheckbox(s[i]) ==> Normalized(s)[i] == s[i]
  {
  }

  /** No checkbox is left after the pass, so a second pass changes nothing. */
  lemma NormalizedIdempotent(s: seq<Node>)
    ensures forall i :: 0 <= i < |s| ==> !HasCheckbox(Normalized(s)[i])
    ensures Normalized(Normalized(s)) == Normalized(s)
  {
  }

  /** A pass that reaches the end is the whole rewrite. */
  lemma RewrittenPrefixComplete(s: seq<Node>)
    ensures RewrittenPrefix(s, |s|) == Normalized(s)
  {
  }

  /** The loop over the container's list items, rewriting `a` in place. The
      library calls inside the loop may raise: `fault` is the position at
      which one does, if any, and the pass then stops there with the nodes
      before it already replaced. `completed` tells whether the loop ran to
      the end. */
  method NormalizeChecklist(a: array<Node>, fault: Option<nat>) returns (completed: bool)
    modifies a
    ensures completed <==> fault.None? || fault.value >= a.Length
    ensures a[..] == RewrittenPrefix(old(a[..]), if completed then a.Length else fault.value)
  {
    var i := 0;
    while i < a.Length
      invariant 0 <= i <= a.Length
      invariant fault.None? || i <= fault.value
      invariant a[..] == RewrittenPrefix(old(a[..]), i)
    {
      if fault.Some? && fault.value == i {
        return false;
      }
      a[i] := Rewrite(a[i]);
      i := i + 1;
    }
    return true;
  }
}
