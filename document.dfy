/**
 * The part of the compose document both editors work on: the children of
 * the element holding the caret, the caret itself, the stored trigger range,
 * and the structural edits a commit performs on that child list.
 */
module Document {
  import opened Wrappers
  import opened Strings
  import opened Dom

  /** The zero-width space the newer editor leaves after a token as a caret anchor. */
  const Zws: string := "\U{200B}"

  /** The no-break space the older editor leaves after a token. */
  const Nbsp: string := "\U{00A0}"

  /** A caret position: inside the text child `node`, or between children. */
  datatype Pos = InText(node: nat, offset: nat) | Between(offset: nat)

  /** The window selection: none, a collapsed caret, or a selection that starts at `pos` and extends further. */
  datatype Sel = NoRange | Caret(pos: Pos) | Extended(pos: Pos)

  /**
   * The live trigger range the session keeps:
   * `InNode` is [start, end) of the text child `node`;
   * `Nested` lies in a text node deeper inside child `node`;
   * `AtGap` is the collapsed range between children that a live range
   * becomes when the text node holding it is removed.
   */
  datatype Span = InNode(node: nat, start: nat, end: nat) | Nested(node: nat) | AtGap(index: nat)

  /** A contact as the background script sends it to the compose window. */
  datatype Contact = Contact(name: string, email: string)

  datatype Key = Backspace | ArrowDown | ArrowUp | Enter | Tab | Escape | OtherKey

  predicate PosValid(doc: seq<Node>, p: Pos) {
    match p
    case InText(i, off) => i < |doc| && doc[i].Text? && off <= |doc[i].content|
    case Between(off) => off <= |doc|
  }

  predicate SelValid(doc: seq<Node>, s: Sel) {
    s.NoRange? || PosValid(doc, s.pos)
  }

  predicate SpanValid(doc: seq<Node>, sp: Span) {
    match sp
    case InNode(n, s, e) => n < |doc| && doc[n].Text? && s <= e <= |doc[n].content|
    case Nested(n) => n < |doc|
    case AtGap(g) => g <= |doc|
  }

  /** The selection as the detector sees it. */
  function ToCursor(doc: seq<Node>, s: Sel): (c: Cursor)
    requires SelValid(doc, s)
    ensures WellPlaced(c)
    ensures c.NoRange? <==> s.NoRange?
    ensures c.Range? ==> (c.collapsed <==> s.Caret?)
  {
    match s
    case NoRange => Dom.NoRange
    case Caret(p) => Range(ContainerAt(doc, p), p.offset, true)
    case Extended(p) => Range(ContainerAt(doc, p), p.offset, false)
  }

  function ContainerAt(doc: seq<Node>, p: Pos): (c: Container)
    requires PosValid(doc, p)
    ensures Length(c) >= p.offset
  {
    match p
    case InText(i, _) => TextNode(doc[i].content)
    case Between(_) => ElementNode(doc)
  }

  /** The range the detector's report becomes in this document. */
  function SpanOf(doc: seq<Node>, s: Sel, f: Found): Span
    requires s.Caret?
  {
    match (s.pos, f.site)
    case (InText(i, _), _) => InNode(i, f.start, f.end)
    case (Between(off), Here) => AtGap(off)
    case (Between(_), Child(k)) => if k < |doc| && doc[k].Text? then InNode(k, f.start, f.end) else Nested(k)
  }

  /** What the detector reports always names a valid range of the document, covering trigger and query. */
  lemma DetectedSpan(doc: seq<Node>, s: Sel, trigger: string)
    requires SelValid(doc, s)
    requires Detect(ToCursor(doc, s), trigger).Some?
    ensures s.Caret?
    ensures var f := Detect(ToCursor(doc, s), trigger).value;
      var sp := SpanOf(doc, s, f);
      SpanValid(doc, sp) &&
      (sp.InNode? ==> doc[sp.node].content[sp.start..sp.end] == trigger + f.query)
  {
    var f := Detect(ToCursor(doc, s), trigger).value;
    var c := ToCursor(doc, s);
    if f.site.Child? {
      var p := PrevText(doc, s.pos.offset);
      assert p.Some? && p.value.0 == f.site.index;
    }
  }

  /** `name || email`. */
  function DisplayName(c: Contact): string {
    if c.name != "" then c.name else c.email
  }

  /** The token for a contact: data-email, data-name and the link text trigger + display name. */
  function Token(c: Contact, trigger: string): (t: Node)
    ensures t.Mention? && t.email == c.email && t.name == DisplayName(c)
    ensures t.caption == trigger + t.name
  {
    Mention(c.email, DisplayName(c), trigger + DisplayName(c))
  }

  /**
   * deleteContents, insertNode(token), then the anchor text inserted after
   * the token. Inserting into a text node splits it at the range start, so a
   * range in one text node leaves the text before it, the token, the anchor
   * and the text after it.
   */
  function CommitDoc(doc: seq<Node>, sp: Span, tok: Node, anchor: string): seq<Node>
    requires SpanValid(doc, sp)
  {
    match sp
    case InNode(j, s, e) =>
      var c := doc[j].content;
      doc[..j] + [Text(c[..s]), tok, Text(anchor), Text(c[e..])] + doc[j + 1..]
    case AtGap(g) => doc[..g] + [tok, Text(anchor)] + doc[g..]
    case Nested(_) => doc
  }

  /** Range.deleteContents: the range's text is removed and the range collapses to its start. */
  function DeleteContents(doc: seq<Node>, sp: Span): (r: (seq<Node>, Span))
    requires SpanValid(doc, sp)
    ensures SpanValid(r.0, r.1) && |r.0| == |doc|
  {
    match sp
    case InNode(j, s, e) =>
      var c := doc[j].content;
      (doc[j := Text(c[..s] + c[e..])], InNode(j, s, s))
    case _ => (doc, sp)
  }

  /**
   * Range.insertNode at a collapsed range: in a text node the node is split
   * at the offset and `n` goes between the halves. Also the index `n` lands at.
   */
  function InsertNode(doc: seq<Node>, sp: Span, n: Node): (r: (seq<Node>, nat))
    requires SpanValid(doc, sp) && !sp.Nested?
    ensures r.1 < |r.0|
  {
    match sp
    case InNode(j, s, _) =>
      var c := doc[j].content;
      (doc[..j] + [Text(c[..s]), n, Text(c[s..])] + doc[j + 1..], j + 1)
    case AtGap(g) => (doc[..g] + [n] + doc[g..], g)
  }

  /** parent.insertBefore(n, child(t).nextSibling). */
  function InsertAfter(doc: seq<Node>, t: nat, n: Node): seq<Node>
    requires t < |doc|
  {
    doc[..t + 1] + [n] + doc[t + 1..]
  }

  /** The three DOM steps of a commit build exactly the committed document, with the token where expected. */
  lemma CommitSteps(doc: seq<Node>, sp: Span, tok: Node, anchor: string)
    requires SpanValid(doc, sp) && !sp.Nested?
    ensures var (d1, sp1) := DeleteContents(doc, sp);
      !sp1.Nested? &&
      var (d2, t) := InsertNode(d1, sp1, tok);
      t + 1 == AnchorIndex(sp) &&
      InsertAfter(d2, t, Text(anchor)) == CommitDoc(doc, sp, tok, anchor)
  {
    if sp.InNode? {
      var j, c := sp.node, doc[sp.node].content;
      var c' := c[..sp.start] + c[sp.end..];
      assert c'[..sp.start] == c[..sp.start];
      assert c'[sp.start..] == c[sp.end..];
      var d1 := doc[j := Text(c')];
      assert d1[..j] == doc[..j] && d1[j + 1..] == doc[j + 1..];
    }
  }

  /** The index of the anchor text node after a commit. */
  function AnchorIndex(sp: Span): nat {
    match sp
    case InNode(j, _, _) => j + 2
    case AtGap(g) => g + 1
    case Nested(n) => n
  }

  /** A commit keeps every child outside the range and places the token right before the anchor. */
  lemma CommitShape(doc: seq<Node>, sp: Span, tok: Node, anchor: string)
    requires SpanValid(doc, sp) && !sp.Nested?
    ensures var d := CommitDoc(doc, sp, tok, anchor);
      var a := AnchorIndex(sp);
      0 < a < |d| && d[a] == Text(anchor) && d[a - 1] == tok &&
      |d| == |doc| + (if sp.InNode? then 3 else 2) &&
      d[..a - 1] == (if sp.InNode? then doc[..sp.node] + [Text(doc[sp.node].content[..sp.start])] else doc[..sp.index]) &&
      d[a + 1..] == (if sp.InNode? then [Text(doc[sp.node].content[sp.end..])] + doc[sp.node + 1..] else doc[sp.index..])
  {
  }

  /** The text a reader sees: the text nodes and the tokens' link text, in document order. */
  function PlainOf(n: Node): string {
    match n
    case Text(s) => s
    case Elem(cs) => Plain(cs)
    case Mention(_, _, caption) => caption
    case Other => ""
  }

  function Plain(cs: seq<Node>): string {
    if cs == [] then "" else PlainOf(cs[0]) + Plain(cs[1..])
  }

  lemma {:induction false} PlainAppend(a: seq<Node>, b: seq<Node>)
    ensures Plain(a + b) == Plain(a) + Plain(b)
    decreases |a|
  {
    if a == [] {
      assert a + b == b;
    } else {
      assert (a + b)[1..] == a[1..] + b;
      PlainAppend(a[1..], b);
    }
  }

  /**
   * A commit replaces exactly the text of the range (trigger and query) with
   * the token's link text followed by the anchor; the text around it is kept.
   */
  lemma CommitReplacesSpan(doc: seq<Node>, sp: Span, tok: Node, anchor: string)
    requires SpanValid(doc, sp) && sp.InNode?
    ensures var c := doc[sp.node].content;
      var before := Plain(doc[..sp.node]) + c[..sp.start];
      var after := c[sp.end..] + Plain(doc[sp.node + 1..]);
      Plain(doc) == before + c[sp.start..sp.end] + after &&
      Plain(CommitDoc(doc, sp, tok, anchor)) == before + PlainOf(tok) + anchor + after
  {
    var j := sp.node;
    var c := doc[j].content;
    var pre, post := doc[..j], doc[j + 1..];
    var x, y, z := c[..sp.start], c[sp.start..sp.end], c[sp.end..];
    PlainAt(doc, j);
    assert c == x + y + z;
    Regroup(Plain(pre), x, y, z, Plain(post));
    var mid := [Text(x), tok, Text(anchor), Text(z)];
    assert CommitDoc(doc, sp, tok, anchor) == pre + mid + post;
    PlainAround(pre, mid, post);
    PlainFour(Text(x), tok, Text(anchor), Text(z));
    Regroup4(Plain(pre), x, PlainOf(tok), anchor, z, Plain(post));
  }

  lemma Regroup(p: string, x: string, y: string, z: string, q: string)
    ensures p + (x + y + z) + q == (p + x) + y + (z + q)
  {
  }

  lemma Regroup4(p: string, x: string, t: string, a: string, z: string, q: string)
    ensures p + (x + t + a + z) + q == (p + x) + t + a + (z + q)
  {
  }

  /** The text of a child list, split around child `j`. */
  lemma {:induction false} PlainAt(doc: seq<Node>, j: nat)
    requires j < |doc|
    ensures Plain(doc) == Plain(doc[..j]) + PlainOf(doc[j]) + Plain(doc[j + 1..])
    decreases j
  {
    if j == 0 {
      assert doc[..0] == [];
    } else {
      var tail := doc[1..];
      PlainAt(tail, j - 1);
      assert tail[..j - 1] == doc[1..j];
      assert tail[j - 1] == doc[j];
      assert tail[j..] == doc[j + 1..];
      assert doc[..j][1..] == doc[1..j];
      assert Plain(doc[..j]) == PlainOf(doc[0]) + Plain(doc[1..j]);
    }
  }

  lemma PlainAround(pre: seq<Node>, mid: seq<Node>, post: seq<Node>)
    ensures Plain(pre + mid + post) == Plain(pre) + Plain(mid) + Plain(post)
  {
    PlainAppend(pre + mid, post);
    PlainAppend(pre, mid);
  }

  lemma PlainOne(a: Node)
    ensures Plain([a]) == PlainOf(a)
  {
    assert [a][1..] == [];
  }

  lemma PlainFour(a: Node, b: Node, c: Node, d: Node)
    ensures Plain([a, b, c, d]) == PlainOf(a) + PlainOf(b) + PlainOf(c) + PlainOf(d)
  {
    PlainOne(a);
    PlainOne(b);
    PlainOne(c);
    PlainOne(d);
    assert [a, b, c, d] == [a] + [b] + [c] + [d];
    PlainAppend([a] + [b] + [c], [d]);
    PlainAppend([a] + [b], [c]);
    PlainAppend([a], [b]);
  }

  /** The live trigger range after child `x` is removed (a boundary inside the removed child moves to the gap it leaves). */
  function RangeAfterRemoval(r: Option<Span>, x: nat): Option<Span> {
    match r
    case None => None
    case Some(InNode(n, s, e)) => Some(if n < x then InNode(n, s, e) else if n == x then AtGap(x) else InNode(n - 1, s, e))
    case Some(Nested(n)) => Some(if n < x then Nested(n) else if n == x then AtGap(x) else Nested(n - 1))
    case Some(AtGap(g)) => Some(if g > x then AtGap(g - 1) else AtGap(g))
  }

  /** The child list without child `x`. */
  function RemoveAt(doc: seq<Node>, x: nat): (d: seq<Node>)
    requires x < |doc|
    ensures |d| == |doc| - 1
    ensures forall k :: 0 <= k < x ==> d[k] == doc[k]
    ensures forall k :: x <= k < |d| ==> d[k] == doc[k + 1]
  {
    doc[..x] + doc[x + 1..]
  }

  /** Removing a child keeps the stored trigger range valid. */
  lemma RemovalKeepsRange(doc: seq<Node>, r: Option<Span>, x: nat)
    requires x < |doc|
    requires r.Some? ==> SpanValid(doc, r.value)
    ensures var r' := RangeAfterRemoval(r, x);
      r'.Some? ==> SpanValid(RemoveAt(doc, x), r'.value)
  {
  }

  /** A token name after one backspace: its whitespace-separated words but the last, joined by single spaces. */
  function ShrunkName(name: string): string {
    var ws := SplitWs(name);
    JoinSp(ws[..|ws| - 1])
  }

  /** A backspace on a multi-word name drops exactly its last word, so the name gets strictly shorter. */
  lemma ShrinkDropsLastWord(name: string)
    requires |SplitWs(name)| > 1
    ensures SplitWs(ShrunkName(name)) == SplitWs(name)[..|SplitWs(name)| - 1]
    ensures |ShrunkName(name)| < |name|
  {
    var ws := SplitWs(name);
    SplitWsPieces(name);
    SplitJoin(ws[..|ws| - 1]);
    JoinPrefixShorter(name);
  }
}
