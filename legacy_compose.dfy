/**
 * The older compose script (compose/compose-script.js): the trigger is the
 * literal "@", a no-break space follows each token, the caret is placed after
 * that space at once, no recipient message is sent, and a backspace drops a
 * token's last name word or removes the token alone, leaving the caret
 * wherever the removal moves it.
 */
module LegacyCompose {
  import opened Wrappers
  import opened Strings
  import opened Dom
  import opened Document
  import opened Dropdown

  const At: string := "@"

  /** What a key press leads to: the new session and whether the default action is prevented. */
  datatype Outcome = Outcome(session: Session, prevented: bool)

  /** selectContact(index). */
  function Selected(s: Session, index: int): Session
    requires Inv(s)
  {
    if !(0 <= index < |s.contacts|) || s.range.None? then s
    else
      var c := s.contacts[index];
      var sp := s.range.value;
      var doc := CommitDoc(s.doc, sp, Token(c, At), Nbsp);
      var sel := if sp.Nested? then s.sel else Caret(Between(AnchorIndex(sp) + 1));
      Hidden(s.(doc := doc, sel := sel))
  }

  /** The token a backspace at this caret acts on, and whether the no-break space after it is stripped first. */
  function Target(doc: seq<Node>, sel: Sel): (r: Option<(nat, bool)>)
    requires SelValid(doc, sel)
    ensures r.Some? ==> r.value.0 < |doc| && doc[r.value.0].Mention?
    ensures r.Some? && r.value.1 ==> sel.Caret? && sel.pos.InText? && sel.pos.node == r.value.0 + 1
  {
    match sel
    case Caret(InText(i, off)) =>
      var text := doc[i].content;
      if off == 0 then
        if i > 0 && doc[i - 1].Mention? then Some((i - 1, false)) else None
      else if off == 1 && text[0] == Nbsp[0] then
        if i > 0 && doc[i - 1].Mention? then Some((i - 1, true)) else None
      else None
    case Caret(Between(off)) =>
      if off > 0 && doc[off - 1].Mention? then Some((off - 1, false)) else None
    case _ => None
  }

  /** A live boundary offset inside a text node whose content is replaced drops to 0. */
  function RangeAfterRewrite(r: Option<Span>, i: nat): Option<Span> {
    if r.Some? && r.value.InNode? && r.value.node == i then Some(InNode(i, 0, 0)) else r
  }

  /** A live caret after child `x` is removed. */
  function CaretAfterRemoval(p: Pos, x: nat): Pos {
    match p
    case InText(j, off) => if j > x then InText(j - 1, off) else InText(j, off)
    case Between(off) => if off > x then Between(off - 1) else Between(off)
  }

  /** The first step of a backspace after the no-break space: the space is cut off and the caret falls to offset 0. */
  function Stripped(s: Session, i: nat): Session
    requires i < |s.doc| && s.doc[i].Text? && |s.doc[i].content| > 0
  {
    s.(doc := s.doc[i := Text(s.doc[i].content[1..])], sel := Caret(InText(i, 0)),
       range := RangeAfterRewrite(s.range, i))
  }

  /** The rest of handleMentionBackspace on token `m`. */
  function Shrunk(s: Session, m: nat): Session
    requires m < |s.doc| && s.doc[m].Mention?
  {
    var tok := s.doc[m];
    if |SplitWs(tok.name)| > 1 then
      var n := ShrunkName(tok.name);
      s.(doc := s.doc[m := Mention(tok.email, n, At + n)])
    else
      s.(doc := RemoveAt(s.doc, m),
         sel := if s.sel.NoRange? then s.sel else Caret(CaretAfterRemoval(s.sel.pos, m)),
         range := RangeAfterRemoval(s.range, m))
  }

  /** handleMentionBackspace, when it finds a token. */
  function Backspaced(s: Session): Session
    requires Inv(s) && Target(s.doc, s.sel).Some?
  {
    var (m, strip) := Target(s.doc, s.sel).value;
    if strip then Shrunk(Stripped(s, m + 1), m) else Shrunk(s, m)
  }

  /** handleKeyDown. */
  function KeyDown(s: Session, key: Key): Outcome
    requires Inv(s)
  {
    if key == Backspace && Target(s.doc, s.sel).Some? then Outcome(Backspaced(s), true)
    else if !s.visible then Outcome(s, false)
    else match key
      case ArrowDown => Outcome(Down(s), true)
      case ArrowUp => Outcome(Up(s), true)
      case Enter | Tab =>
        if s.selectedIndex >= 0 && |s.contacts| > 0 then Outcome(Selected(s, s.selectedIndex), true)
        else Outcome(s, false)
      case Escape => Outcome(Hidden(s), true)
      case _ => Outcome(s, false)
  }

  /**
   * A commit with a contact and a range ends the session and puts the token
   * (link text "@" + name or email) right before a lone no-break-space text
   * node, with the caret between children right after it; it replaces exactly
   * the "@" and the query. Without a contact or a range nothing happens.
   */
  lemma SelectedCommits(s: Session, index: int)
    requires Inv(s)
    ensures var t := Selected(s, index);
      Inv(t) &&
      (!(0 <= index < |s.contacts|) || s.range.None? ==> t == s) &&
      (0 <= index < |s.contacts| && s.range.Some? ==>
        var c := s.contacts[index];
        var sp := s.range.value;
        Idle(t) &&
        (sp.InNode? ==>
          var a := AnchorIndex(sp);
          var text := s.doc[sp.node].content;
          a < |t.doc| && t.doc[a] == Text(Nbsp) && t.doc[a - 1] == Token(c, At) &&
          t.sel == Caret(Between(a + 1)) &&
          var before := Plain(s.doc[..sp.node]) + text[..sp.start];
          var after := text[sp.end..] + Plain(s.doc[sp.node + 1..]);
          Plain(s.doc) == before + text[sp.start..sp.end] + after &&
          Plain(t.doc) == before + (At + DisplayName(c)) + Nbsp + after))
  {
    if 0 <= index < |s.contacts| && s.range.Some? {
      var c := s.contacts[index];
      var sp := s.range.value;
      var tok := Token(c, At);
      var d := CommitDoc(s.doc, sp, tok, Nbsp);
      var sel := if sp.Nested? then s.sel else Caret(Between(AnchorIndex(sp) + 1));
      if !sp.Nested? {
        CommitShape(s.doc, sp, tok, Nbsp);
        assert SelValid(d, sel);
      }
      assert Selected(s, index) == Hidden(s.(doc := d, sel := sel));
      HiddenInv(s.(doc := d, sel := sel));
      if sp.InNode? {
        CommitInText(s, index);
      }
    }
  }

  /** The commit of a range inside a text child, the case `SelectedCommits` describes in detail. */
  lemma CommitInText(s: Session, index: int)
    requires Inv(s) && 0 <= index < |s.contacts| && s.range.Some? && s.range.value.InNode?
    ensures var t := Selected(s, index);
      var c := s.contacts[index];
      var sp := s.range.value;
      var a := AnchorIndex(sp);
      var text := s.doc[sp.node].content;
      a < |t.doc| && t.doc[a] == Text(Nbsp) && t.doc[a - 1] == Token(c, At) &&
      t.sel == Caret(Between(a + 1)) &&
      var before := Plain(s.doc[..sp.node]) + text[..sp.start];
      var after := text[sp.end..] + Plain(s.doc[sp.node + 1..]);
      Plain(s.doc) == before + text[sp.start..sp.end] + after &&
      Plain(t.doc) == before + (At + DisplayName(c)) + Nbsp + after
  {
    var c := s.contacts[index];
    var sp := s.range.value;
    var tok := Token(c, At);
    var d := CommitDoc(s.doc, sp, tok, Nbsp);
    assert Selected(s, index).doc == d;
    CommitShape(s.doc, sp, tok, Nbsp);
    CommitReplacesSpan(s.doc, sp, tok, Nbsp);
    assert PlainOf(tok) == At + DisplayName(c);
  }

  /**
   * Right after a commit the caret sits after the no-break-space node, which
   * is not a token, so the handler leaves the next backspace to the browser.
   */
  lemma NoTokenRightAfterCommit(s: Session, index: int)
    requires Inv(s) && 0 <= index < |s.contacts| && s.range.Some? && !s.range.value.Nested?
    ensures var t := Selected(s, index);
      SelValid(t.doc, t.sel) && Target(t.doc, t.sel).None?
  {
    CommitShape(s.doc, s.range.value, Token(s.contacts[index], At), Nbsp);
  }

  /**
   * Backspace at offset 1 of a text node that starts with the no-break space,
   * right after a token, also strips that space. Only that child changes; a
   * live range inside it collapses to its start, any other stays.
   */
  lemma StripAfterToken(s: Session)
    requires Inv(s) && Target(s.doc, s.sel).Some? && Target(s.doc, s.sel).value.1
    ensures var i := s.sel.pos.node;
      var u := Stripped(s, i);
      s.doc[i].content[0] == Nbsp[0] &&
      u.doc[i] == Text(s.doc[i].content[1..]) && u.sel == Caret(InText(i, 0)) && Inv(u) &&
      |u.doc| == |s.doc| && (forall k :: 0 <= k < |s.doc| && k != i ==> u.doc[k] == s.doc[k]) &&
      u.visible == s.visible && u.selectedIndex == s.selectedIndex &&
      u.contacts == s.contacts && u.query == s.query &&
      (s.range.Some? && s.range.value.InNode? && s.range.value.node == i ==> u.range == Some(InNode(i, 0, 0))) &&
      (!(s.range.Some? && s.range.value.InNode? && s.range.value.node == i) ==> u.range == s.range)
  {
  }

  /**
   * A backspace next to a token keeps the invariant and the dropdown as it
   * was; a multi-word name loses exactly its last word; a single-word token
   * is removed and nothing else, so the text after it stays.
   */
  lemma ShrunkEffect(s: Session, m: nat)
    requires Inv(s) && m < |s.doc| && s.doc[m].Mention?
    requires s.sel.Caret? ==> !(s.sel.pos.InText? && s.sel.pos.node == m)
    ensures var t := Shrunk(s, m);
      var name := s.doc[m].name;
      Inv(t) &&
      t.visible == s.visible && t.selectedIndex == s.selectedIndex &&
      t.contacts == s.contacts && t.query == s.query &&
      (|SplitWs(name)| > 1 ==>
        |t.doc| == |s.doc| && t.doc[m].Mention? && t.doc[m].email == s.doc[m].email &&
        SplitWs(t.doc[m].name) == SplitWs(name)[..|SplitWs(name)| - 1] &&
        t.doc[m].caption == At + t.doc[m].name &&
        (forall k :: 0 <= k < |s.doc| && k != m ==> t.doc[k] == s.doc[k]) &&
        t.sel == s.sel && t.range == s.range) &&
      (|SplitWs(name)| <= 1 ==>
        t.doc == s.doc[..m] + s.doc[m + 1..] &&
        t.range == RangeAfterRemoval(s.range, m) &&
        (s.sel.NoRange? ==> t.sel.NoRange?) &&
        (s.sel.Caret? && s.sel.pos.InText? ==>
          t.sel.Caret? && t.sel.pos.InText? && t.sel.pos.node < |t.doc| &&
          t.doc[t.sel.pos.node] == s.doc[s.sel.pos.node] && t.sel.pos.offset == s.sel.pos.offset) &&
        (s.sel == Caret(Between(m + 1)) ==> t.sel == Caret(Between(m))))
  {
    if |SplitWs(s.doc[m].name)| > 1 {
      LastWordDropped(s, m);
    } else {
      RemovedAlone(s, m);
    }
  }

  /** A multi-word token loses its last word, and nothing else in the session changes. */
  lemma LastWordDropped(s: Session, m: nat)
    requires Inv(s) && m < |s.doc| && s.doc[m].Mention? && |SplitWs(s.doc[m].name)| > 1
    ensures var t := Shrunk(s, m);
      var name := s.doc[m].name;
      Inv(t) &&
      |t.doc| == |s.doc| && t.doc[m].Mention? && t.doc[m].email == s.doc[m].email &&
      SplitWs(t.doc[m].name) == SplitWs(name)[..|SplitWs(name)| - 1] &&
      t.doc[m].caption == At + t.doc[m].name &&
      (forall k :: 0 <= k < |s.doc| && k != m ==> t.doc[k] == s.doc[k]) &&
      t.visible == s.visible && t.selectedIndex == s.selectedIndex &&
      t.contacts == s.contacts && t.query == s.query &&
      t.sel == s.sel && t.range == s.range
  {
    ShrinkDropsLastWord(s.doc[m].name);
  }

  /**
   * A single-word token goes by itself. The caret is not moved by the
   * handler, so it stays where the DOM leaves it: in the same text node at
   * the same offset, or between the same children.
   */
  lemma RemovedAlone(s: Session, m: nat)
    requires Inv(s) && m < |s.doc| && s.doc[m].Mention? && |SplitWs(s.doc[m].name)| <= 1
    requires s.sel.Caret? ==> !(s.sel.pos.InText? && s.sel.pos.node == m)
    ensures var t := Shrunk(s, m);
      Inv(t) &&
      t.doc == s.doc[..m] + s.doc[m + 1..] &&
      t.range == RangeAfterRemoval(s.range, m) &&
      (s.sel.NoRange? ==> t.sel.NoRange?) &&
      (s.sel.Caret? && s.sel.pos.InText? ==>
        t.sel.Caret? && t.sel.pos.InText? && t.sel.pos.node < |t.doc| &&
        t.doc[t.sel.pos.node] == s.doc[s.sel.pos.node] && t.sel.pos.offset == s.sel.pos.offset) &&
      (s.sel == Caret(Between(m + 1)) ==> t.sel == Caret(Between(m)))
  {
    var d := RemoveAt(s.doc, m);
    var sel := if s.sel.NoRange? then s.sel else Caret(CaretAfterRemoval(s.sel.pos, m));
    assert Shrunk(s, m) == s.(doc := d, sel := sel, range := RangeAfterRemoval(s.range, m));
    RemovalKeepsRange(s.doc, s.range, m);
  }

  lemma BackspacedInv(s: Session)
    requires Inv(s) && Target(s.doc, s.sel).Some?
    ensures Inv(Backspaced(s))
  {
    var (m, strip) := Target(s.doc, s.sel).value;
    if strip {
      StripAfterToken(s);
      ShrunkEffect(Stripped(s, m + 1), m);
    } else {
      ShrunkEffect(s, m);
    }
  }

  /** Every key keeps the invariant. */
  lemma KeyDownInv(s: Session, key: Key)
    requires Inv(s)
    ensures Inv(KeyDown(s, key).session)
  {
    if key == Backspace && Target(s.doc, s.sel).Some? {
      BackspacedInv(s);
    } else if s.visible {
      if key == Enter || key == Tab {
        SelectedCommits(s, s.selectedIndex);
      }
    }
  }

  /** While the dropdown is hidden only a backspace next to a token does anything. */
  lemma HiddenIgnoresKeys(s: Session, key: Key)
    requires Inv(s) && !s.visible
    requires key != Backspace || Target(s.doc, s.sel).None?
    ensures KeyDown(s, key) == Outcome(s, false)
  {
  }

  /** The compose window's mention editor: the session variables and the edited document. */
  class MentionEditor {
    var doc: seq<Node>
    var sel: Sel
    var visible: bool
    var selectedIndex: int
    var contacts: seq<Contact>
    var query: string
    var range: Option<Span>

    function State(): Session
      reads this
    {
      Session(doc, sel, visible, selectedIndex, contacts, query, range)
    }

    ghost predicate Valid()
      reads this
    {
      Inv(State())
    }

    constructor (doc0: seq<Node>, sel0: Sel)
      requires SelValid(doc0, sel0)
      ensures Valid() && State() == Start(doc0, sel0)
    {
      doc, sel := doc0, sel0;
      visible, selectedIndex, contacts, query, range := false, -1, [], "", None;
    }

    method HideDropdown()
      modifies this
      ensures State() == Hidden(old(State()))
    {
      visible := false;
      selectedIndex := -1;
      contacts := [];
      query := "";
      range := None;
    }

    method ShowDropdown()
      modifies this
      ensures State() == Shown(old(State()))
    {
      if |contacts| == 0 {
        HideDropdown();
        return;
      }
      visible := true;
      selectedIndex := 0;
    }

    /** handleInput, after the host applied an edit that left `newDoc` and `newSel`; the query to fetch contacts for. */
    method HandleInput(newDoc: seq<Node>, newSel: Sel) returns (fetch: Option<string>)
      requires Valid() && SelValid(newDoc, newSel)
      modifies this
      ensures Valid()
      ensures (State(), fetch) == Input(old(State()), newDoc, newSel, At)
    {
      InputInv(State(), newDoc, newSel, At);
      var found := FindAtTrigger(ToCursor(newDoc, newSel), At);
      if found.Some? {
        var q, r := found.value.query, Some(SpanOf(newDoc, newSel, found.value));
        doc, sel, query, range := newDoc, newSel, q, r;
        fetch := Some(q);
      } else {
        doc, sel := newDoc, newSel;
        HideDropdown();
        fetch := None;
      }
    }

    /** fetchAndShowContacts, once the request is answered. */
    method ReceiveContacts(reply: ContactsReply)
      requires Valid()
      modifies this
      ensures Valid()
      ensures State() == Receive(old(State()), reply)
    {
      match reply {
        case Failed =>
          HideDropdown();
        case Replied(list) =>
          contacts := list.GetOr([]);
          ShowDropdown();
      }
      ReceiveShows(old(State()), reply);
    }

    method MouseEnter(index: int)
      requires Valid()
      modifies this
      ensures Valid()
      ensures State() == Hovered(old(State()), index)
    {
      if visible && 0 <= index < |contacts| {
        selectedIndex := index;
      }
    }

    method HandleDocumentClick(insideDropdown: bool)
      requires Valid()
      modifies this
      ensures Valid()
      ensures State() == Clicked(old(State()), insideDropdown)
    {
      if !insideDropdown {
        HideDropdown();
      }
    }

    /** The host moves the caret without an input event. */
    method CaretMoved(newSel: Sel)
      requires Valid() && SelValid(doc, newSel)
      modifies this
      ensures Valid()
      ensures State() == old(State()).(sel := newSel)
    {
      sel := newSel;
    }

    /** selectContact. */
    method SelectContact(index: int)
      requires Valid()
      modifies this
      ensures Valid()
      ensures State() == Selected(old(State()), index)
    {
      if !(0 <= index < |contacts|) || range.None? {
        return;
      }
      ghost var s0 := State();
      var contact := contacts[index];
      var displayName := if contact.name != "" then contact.name else contact.email;
      var mention := Mention(contact.email, displayName, At + displayName);
      var sp := range.value;
      if !sp.Nested? {
        InsertMention(sp, mention);
      }
      HideDropdown();
      SelectedCommits(s0, index);
      assert Selected(s0, index) == Hidden(Session(doc, sel, s0.visible, s0.selectedIndex, s0.contacts, s0.query, s0.range));
    }

    /** The range's text replaced by the token and a no-break space, with the caret after them. */
    method InsertMention(sp: Span, mention: Node)
      requires SpanValid(doc, sp) && !sp.Nested?
      modifies this
      ensures State() == Session(CommitDoc(old(doc), sp, mention, Nbsp), Caret(Between(AnchorIndex(sp) + 1)),
        old(visible), old(selectedIndex), old(contacts), old(query), old(range))
    {
      CommitSteps(doc, sp, mention, Nbsp);
      var (d1, collapsed) := DeleteContents(doc, sp);
      var (d2, at) := InsertNode(d1, collapsed, mention);
      doc := InsertAfter(d2, at, Text(Nbsp));
      sel := Caret(Between(at + 2));
    }

    /** The first half of handleMentionBackspace: the token to act on and whether to strip the space first, or -1. */
    method FindMention() returns (m: int, strip: bool)
      requires SelValid(doc, sel)
      ensures Target(doc, sel).Some? ==> m == Target(doc, sel).value.0 as int && strip == Target(doc, sel).value.1
      ensures Target(doc, sel).None? ==> m == -1
    {
      m, strip := -1, false;
      if !sel.Caret? {
        return;
      }
      match sel.pos {
        case InText(i, off) =>
          if off == 0 {
            if i > 0 && doc[i - 1].Mention? {
              m := i - 1;
            }
          } else if off == 1 && doc[i].content[0] == Nbsp[0] {
            if i > 0 && doc[i - 1].Mention? {
              m, strip := i - 1, true;
            }
          }
        case Between(off) =>
          if off > 0 && doc[off - 1].Mention? {
            m := off - 1;
          }
      }
    }

    /** handleMentionBackspace: whether a token next to the caret was shrunk or removed. */
    method HandleMentionBackspace() returns (handled: bool)
      requires Valid()
      modifies this
      ensures Valid()
      ensures handled == Target(old(doc), old(sel)).Some?
      ensures State() == if handled then Backspaced(old(State())) else old(State())
    {
      var m, strip := FindMention();
      if m < 0 {
        return false;
      }
      ghost var s0 := State();
      if strip {
        var i := m + 1;
        StripAfterToken(State());
        doc := doc[i := Text(doc[i].content[1..])];
        sel := Caret(InText(i, 0));
        range := RangeAfterRewrite(range, i);
      }
      assert State() == if strip then Stripped(s0, m + 1) else s0;
      ShrinkMention(m);
      return true;
    }

    /** The rest of handleMentionBackspace on token `m`: a multi-word name loses its last word, a single word removes the token. */
    method ShrinkMention(m: nat)
      requires Valid() && m < |doc| && doc[m].Mention?
      requires sel.Caret? && !(sel.pos.InText? && sel.pos.node == m)
      modifies this
      ensures Valid()
      ensures State() == Shrunk(old(State()), m)
    {
      ghost var t := Shrunk(State(), m);
      ShrunkEffect(State(), m);
      var mention := doc[m];
      var words := SplitWs(mention.name);
      if |words| > 1 {
        var newName := JoinSp(words[..|words| - 1]);
        doc := doc[m := Mention(mention.email, newName, At + newName)];
        assert State() == t;
      } else {
        var d, c, r := RemoveAt(doc, m), Caret(CaretAfterRemoval(sel.pos, m)), RangeAfterRemoval(range, m);
        assert d == t.doc && c == t.sel && r == t.range;
        doc, sel, range := d, c, r;
      }
    }

    /** handleKeyDown: whether the key's default action is prevented. */
    method HandleKeyDown(key: Key) returns (prevented: bool)
      requires Valid()
      modifies this
      ensures Valid()
      ensures Outcome(State(), prevented) == KeyDown(old(State()), key)
    {
      if key == Backspace {
        var handled := HandleMentionBackspace();
        if handled {
          return true;
        }
      }
      if !visible {
        return false;
      }
      match key {
        case ArrowDown =>
          selectedIndex := Min(selectedIndex + 1, |contacts| - 1);
          return true;
        case ArrowUp =>
          selectedIndex := Max(selectedIndex - 1, 0);
          return true;
        case Enter =>
          if selectedIndex >= 0 && |contacts| > 0 {
            SelectContact(selectedIndex);
            return true;
          }
          return false;
        case Tab =>
          if selectedIndex >= 0 && |contacts| > 0 {
            SelectContact(selectedIndex);
            return true;
          }
          return false;
        case Escape =>
          HideDropdown();
          return true;
        case _ =>
          return false;
      }
    }
  }
}
