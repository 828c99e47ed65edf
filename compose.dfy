/**
 * The newer compose script (src/compose-script.js): a configurable trigger
 * character, a zero-width-space anchor after each token, the recipient
 * message sent on commit, and a backspace that drops a token's last name
 * word, or removes the token with its anchor and puts the caret where it was.
 */
module Compose {
  import opened Wrappers
  import opened Strings
  import opened Dom
  import opened Document
  import opened Dropdown

  /** The message selectContact sends to the background script. */
  datatype Request = EnsureRecipientInTo(email: string, name: string)

  /** What a key press leads to: the new session, whether the default action is prevented, and any message sent. */
  datatype Outcome = Outcome(session: Session, prevented: bool, request: Option<Request>)

  /** loadSettings: the configured trigger when the reply carries a non-empty one, else "@". */
  function LoadedTrigger(reply: Option<string>): (t: string)
    ensures t != ""
    ensures t == "@" <==> (reply.None? || reply.value == "" || reply.value == "@")
  {
    if reply.Some? && reply.value != "" then reply.value else "@"
  }

  /** selectContact(index): the new session and the message sent. */
  function Selected(s: Session, index: int, trigger: string): (Session, Option<Request>)
    requires Inv(s)
  {
    if !(0 <= index < |s.contacts|) || s.range.None? then (s, None)
    else
      var c := s.contacts[index];
      var sp := s.range.value;
      var doc := CommitDoc(s.doc, sp, Token(c, trigger), Zws);
      var sel := if sp.Nested? then s.sel else Caret(InText(AnchorIndex(sp), 1));
      (Hidden(s.(doc := doc, sel := sel)), Some(EnsureRecipientInTo(c.email, DisplayName(c))))
  }

  /** The token a backspace at this caret acts on, if any. */
  function Target(doc: seq<Node>, sel: Sel): (r: Option<nat>)
    requires SelValid(doc, sel)
    ensures r.Some? ==> r.value < |doc| && doc[r.value].Mention?
  {
    match sel
    case Caret(InText(i, off)) =>
      var text := doc[i].content;
      var isZwsAnchor := text == Zws || (off <= 1 && StartsWith(text, Zws));
      if (off == 0 || isZwsAnchor) && i > 0 && doc[i - 1].Mention? then Some(i - 1) else None
    case Caret(Between(off)) =>
      if off == 0 then None
      else if doc[off - 1].Text? && doc[off - 1].content == Zws then
        if off >= 2 && doc[off - 2].Mention? then Some(off - 2) else None
      else if doc[off - 1].Mention? then Some(off - 1)
      else None
    case _ => None
  }

  /** A removed token takes the anchor right after it along. */
  predicate AnchorFollows(doc: seq<Node>, m: nat) {
    m + 1 < |doc| && doc[m + 1] == Text(Zws)
  }

  /** Where the caret goes when token `m` is removed: the end of the previous text, after the previous node, or the start of the parent. */
  function CaretAfterRemoval(doc: seq<Node>, m: nat): Pos
    requires m < |doc|
  {
    if m == 0 then Between(0)
    else if doc[m - 1].Text? then InText(m - 1, |doc[m - 1].content|)
    else Between(m)
  }

  /** handleMentionBackspace, when it finds a token. */
  function Backspaced(s: Session, trigger: string): Session
    requires Inv(s) && Target(s.doc, s.sel).Some?
  {
    var m := Target(s.doc, s.sel).value;
    var tok := s.doc[m];
    if |SplitWs(tok.name)| > 1 then
      var n := ShrunkName(tok.name);
      s.(doc := s.doc[m := Mention(tok.email, n, trigger + n)])
    else
      var caret := Caret(CaretAfterRemoval(s.doc, m));
      if AnchorFollows(s.doc, m) then
        s.(doc := RemoveAt(RemoveAt(s.doc, m + 1), m), sel := caret,
           range := RangeAfterRemoval(RangeAfterRemoval(s.range, m + 1), m))
      else
        s.(doc := RemoveAt(s.doc, m), sel := caret, range := RangeAfterRemoval(s.range, m))
  }

  /** handleKeyDown. */
  function KeyDown(s: Session, key: Key, trigger: string): Outcome
    requires Inv(s)
  {
    if key == Backspace && Target(s.doc, s.sel).Some? then Outcome(Backspaced(s, trigger), true, None)
    else if !s.visible then Outcome(s, false, None)
    else match key
      case ArrowDown => Outcome(Down(s), true, None)
      case ArrowUp => Outcome(Up(s), true, None)
      case Enter | Tab =>
        if s.selectedIndex >= 0 && |s.contacts| > 0 then
          var (t, req) := Selected(s, s.selectedIndex, trigger);
          Outcome(t, true, req)
        else Outcome(s, false, None)
      case Escape => Outcome(Hidden(s), true, None)
      case _ => Outcome(s, false, None)
  }

  /**
   * A commit with a contact and a range ends the session, puts the token
   * (data-email, data-name = name or email, link text trigger + that name)
   * right before a lone zero-width-space text node with the caret after it,
   * replaces exactly the trigger-and-query text, and asks for the contact to
   * be added to To. Without a contact or a range nothing happens.
   */
  lemma SelectedCommits(s: Session, index: int, trigger: string)
    requires Inv(s)
    ensures var (t, req) := Selected(s, index, trigger);
      Inv(t) &&
      (!(0 <= index < |s.contacts|) || s.range.None? ==> t == s && req.None?) &&
      (0 <= index < |s.contacts| && s.range.Some? ==>
        var c := s.contacts[index];
        var sp := s.range.value;
        Idle(t) && req == Some(EnsureRecipientInTo(c.email, DisplayName(c))) &&
        (sp.InNode? ==>
          var a := AnchorIndex(sp);
          var text := s.doc[sp.node].content;
          a < |t.doc| && t.doc[a] == Text(Zws) && t.doc[a - 1] == Token(c, trigger) &&
          t.sel == Caret(InText(a, 1)) &&
          var before := Plain(s.doc[..sp.node]) + text[..sp.start];
          var after := text[sp.end..] + Plain(s.doc[sp.node + 1..]);
          Plain(s.doc) == before + text[sp.start..sp.end] + after &&
          Plain(t.doc) == before + (trigger + DisplayName(c)) + Zws + after))
  {
    if 0 <= index < |s.contacts| && s.range.Some? {
      var c := s.contacts[index];
      var sp := s.range.value;
      var tok := Token(c, trigger);
      var d := CommitDoc(s.doc, sp, tok, Zws);
      var sel := if sp.Nested? then s.sel else Caret(InText(AnchorIndex(sp), 1));
      if !sp.Nested? {
        CommitShape(s.doc, sp, tok, Zws);
        assert SelValid(d, sel);
      }
      assert Selected(s, index, trigger).0 == Hidden(s.(doc := d, sel := sel));
      HiddenInv(s.(doc := d, sel := sel));
      if sp.InNode? {
        CommitInText(s, index, trigger);
      }
    }
  }

  /** The commit of a range inside a text child, the case `SelectedCommits` describes in detail. */
  lemma CommitInText(s: Session, index: int, trigger: string)
    requires Inv(s) && 0 <= index < |s.contacts| && s.range.Some? && s.range.value.InNode?
    ensures var t := Selected(s, index, trigger).0;
      var c := s.contacts[index];
      var sp := s.range.value;
      var a := AnchorIndex(sp);
      var text := s.doc[sp.node].content;
      a < |t.doc| && t.doc[a] == Text(Zws) && t.doc[a - 1] == Token(c, trigger) &&
      t.sel == Caret(InText(a, 1)) &&
      var before := Plain(s.doc[..sp.node]) + text[..sp.start];
      var after := text[sp.end..] + Plain(s.doc[sp.node + 1..]);
      Plain(s.doc) == before + text[sp.start..sp.end] + after &&
      Plain(t.doc) == before + (trigger + DisplayName(c)) + Zws + after
  {
    var c := s.contacts[index];
    var sp := s.range.value;
    var tok := Token(c, trigger);
    assert Selected(s, index, trigger).0.doc == CommitDoc(s.doc, sp, tok, Zws);
    CommitShape(s.doc, sp, tok, Zws);
    CommitReplacesSpan(s.doc, sp, tok, Zws);
    assert PlainOf(tok) == trigger + DisplayName(c);
  }

  /** Right after a commit, the caret sits on the anchor, so the next backspace acts on the new token. */
  lemma BackspaceAfterCommit(s: Session, index: int, trigger: string)
    requires Inv(s) && 0 <= index < |s.contacts| && s.range.Some? && !s.range.value.Nested?
    ensures var (t, _) := Selected(s, index, trigger);
      SelValid(t.doc, t.sel) && Target(t.doc, t.sel) == Some(AnchorIndex(s.range.value) - 1)
  {
    CommitShape(s.doc, s.range.value, Token(s.contacts[index], trigger), Zws);
  }

  /**
   * A backspace next to a token keeps the invariant and the dropdown as it
   * was; a multi-word name loses exactly its last word; a single-word token
   * goes, with its anchor when one follows, and the caret lands where it was.
   */
  lemma BackspacedEffect(s: Session, trigger: string)
    requires Inv(s) && Target(s.doc, s.sel).Some?
    ensures var t := Backspaced(s, trigger);
      var m := Target(s.doc, s.sel).value;
      var name := s.doc[m].name;
      Inv(t) &&
      t.visible == s.visible && t.selectedIndex == s.selectedIndex &&
      t.contacts == s.contacts && t.query == s.query &&
      (|SplitWs(name)| > 1 ==>
        |t.doc| == |s.doc| && t.doc[m].Mention? && t.doc[m].email == s.doc[m].email &&
        SplitWs(t.doc[m].name) == SplitWs(name)[..|SplitWs(name)| - 1] &&
        t.doc[m].caption == trigger + t.doc[m].name &&
        (forall k :: 0 <= k < |s.doc| && k != m ==> t.doc[k] == s.doc[k]) &&
        t.sel == s.sel && t.range == s.range) &&
      (|SplitWs(name)| <= 1 ==>
        t.doc == s.doc[..m] + s.doc[m + (if AnchorFollows(s.doc, m) then 2 else 1)..] &&
        t.sel == Caret(CaretAfterRemoval(s.doc, m)))
  {
    var m := Target(s.doc, s.sel).value;
    var name := s.doc[m].name;
    if |SplitWs(name)| > 1 {
      ShrinkEffect(s, trigger, m);
    } else {
      RemovalEffect(s, trigger, m);
    }
  }

  lemma ShrinkEffect(s: Session, trigger: string, m: nat)
    requires Inv(s) && Target(s.doc, s.sel) == Some(m)
    requires |SplitWs(s.doc[m].name)| > 1
    ensures var t := Backspaced(s, trigger);
      var name := s.doc[m].name;
      Inv(t) && t == s.(doc := t.doc) &&
      |t.doc| == |s.doc| && t.doc[m].Mention? && t.doc[m].email == s.doc[m].email &&
      SplitWs(t.doc[m].name) == SplitWs(name)[..|SplitWs(name)| - 1] &&
      t.doc[m].caption == trigger + t.doc[m].name &&
      (forall k :: 0 <= k < |s.doc| && k != m ==> t.doc[k] == s.doc[k])
  {
    ShrinkDropsLastWord(s.doc[m].name);
  }

  lemma RemovalEffect(s: Session, trigger: string, m: nat)
    requires Inv(s) && Target(s.doc, s.sel) == Some(m)
    requires |SplitWs(s.doc[m].name)| <= 1
    ensures var t := Backspaced(s, trigger);
      Inv(t) && t == s.(doc := t.doc, sel := t.sel, range := t.range) &&
      t.doc == s.doc[..m] + s.doc[m + (if AnchorFollows(s.doc, m) then 2 else 1)..] &&
      t.sel == Caret(CaretAfterRemoval(s.doc, m))
  {
    if AnchorFollows(s.doc, m) {
      RemovalKeepsRange(s.doc, s.range, m + 1);
      RemovalKeepsRange(RemoveAt(s.doc, m + 1), RangeAfterRemoval(s.range, m + 1), m);
      assert RemoveAt(RemoveAt(s.doc, m + 1), m) == s.doc[..m] + s.doc[m + 2..];
    } else {
      RemovalKeepsRange(s.doc, s.range, m);
    }
  }

  /** Every key keeps the invariant. */
  lemma KeyDownInv(s: Session, key: Key, trigger: string)
    requires Inv(s)
    ensures Inv(KeyDown(s, key, trigger).session)
  {
    if key == Backspace && Target(s.doc, s.sel).Some? {
      BackspacedEffect(s, trigger);
    } else if s.visible {
      if key == Enter || key == Tab {
        SelectedCommits(s, s.selectedIndex, trigger);
      }
    }
  }

  /** While the dropdown is hidden only a backspace next to a token does anything. */
  lemma HiddenIgnoresKeys(s: Session, key: Key, trigger: string)
    requires Inv(s) && !s.visible
    requires key != Backspace || Target(s.doc, s.sel).None?
    ensures KeyDown(s, key, trigger) == Outcome(s, false, None)
  {
  }

  /** Enter and Tab on a shown dropdown commit the selected contact and send its recipient request. */
  lemma EnterCommitsSelected(s: Session, key: Key, trigger: string)
    requires Inv(s) && s.visible && (key == Enter || key == Tab)
    requires key != Backspace
    ensures var o := KeyDown(s, key, trigger);
      var c := s.contacts[s.selectedIndex];
      o.prevented &&
      (s.range.Some? ==> Idle(o.session) && o.request == Some(EnsureRecipientInTo(c.email, DisplayName(c)))) &&
      (s.range.None? ==> o.session == s && o.request.None?)
  {
  }

  /** The compose window's mention editor: the session variables, the trigger, and the edited document. */
  class MentionEditor {
    var doc: seq<Node>
    var sel: Sel
    var trigger: string
    var visible: bool
    var selectedIndex: int
    var contacts: seq<Contact>
    var query: string
    var range: Option<Span>

    function State(): Session
      reads this
    {
      Session(doc, sel, visible, selectedIndex, contacts, query, range)
    }

    ghost predicate Valid()
      reads this
    {
      Inv(State()) && trigger != ""
    }

    /** init with loadSettings: `settings` is the trigger the settings reply carries, if any. */
    constructor (settings: Option<string>, doc0: seq<Node>, sel0: Sel)
      requires SelValid(doc0, sel0)
      ensures Valid()
      ensures State() == Start(doc0, sel0) && trigger == LoadedTrigger(settings)
    {
      doc, sel := doc0, sel0;
      visible, selectedIndex, contacts, query, range := false, -1, [], "", None;
      trigger := "@";
      if settings.Some? && settings.value != "" {
        trigger := settings.value;
      }
    }

    method HideDropdown()
      modifies this
      ensures State() == Hidden(old(State())) && trigger == old(trigger)
    {
      visible := false;
      selectedIndex := -1;
      contacts := [];
      query := "";
      range := None;
    }

    method ShowDropdown()
      modifies this
      ensures State() == Shown(old(State())) && trigger == old(trigger)
    {
      if |contacts| == 0 {
        HideDropdown();
        return;
      }
      visible := true;
      selectedIndex := 0;
    }

    /** handleInput, after the host applied an edit that left `newDoc` and `newSel`; the query to fetch contacts for. */
    method HandleInput(newDoc: seq<Node>, newSel: Sel) returns (fetch: Option<string>)
      requires Valid() && SelValid(newDoc, newSel)
      modifies this
      ensures Valid() && trigger == old(trigger)
      ensures (State(), fetch) == Input(old(State()), newDoc, newSel, trigger)
    {
      InputInv(State(), newDoc, newSel, trigger);
      var found := FindAtTrigger(ToCursor(newDoc, newSel), trigger);
      if found.Some? {
        var q, r := found.value.query, Some(SpanOf(newDoc, newSel, found.value));
        doc, sel, query, range := newDoc, newSel, q, r;
        fetch := Some(q);
      } else {
        doc, sel := newDoc, newSel;
        HideDropdown();
        fetch := None;
      }
    }

    /** fetchAndShowContacts, once the request is answered. */
    method ReceiveContacts(reply: ContactsReply)
      requires Valid()
      modifies this
      ensures Valid() && trigger == old(trigger)
      ensures State() == Receive(old(State()), reply)
    {
      match reply {
        case Failed =>
          HideDropdown();
        case Replied(list) =>
          contacts := list.GetOr([]);
          ShowDropdown();
      }
      ReceiveShows(old(State()), reply);
    }

    method MouseEnter(index: int)
      requires Valid()
      modifies this
      ensures Valid() && trigger == old(trigger)
      ensures State() == Hovered(old(State()), index)
    {
      if visible && 0 <= index < |contacts| {
        selectedIndex := index;
      }
    }

    method HandleDocumentClick(insideDropdown: bool)
      requires Valid()
      modifies this
      ensures Valid() && trigger == old(trigger)
      ensures State() == Clicked(old(State()), insideDropdown)
    {
      if !insideDropdown {
        HideDropdown();
      }
    }

    /** The host moves the caret without an input event. */
    method CaretMoved(newSel: Sel)
      requires Valid() && SelValid(doc, newSel)
      modifies this
      ensures Valid() && trigger == old(trigger)
      ensures State() == old(State()).(sel := newSel)
    {
      sel := newSel;
    }

    /** selectContact, with the deferred caret placement done at once. */
    method SelectContact(index: int) returns (request: Option<Request>)
      requires Valid()
      modifies this
      ensures Valid() && trigger == old(trigger)
      ensures (State(), request) == Selected(old(State()), index, trigger)
    {
      if !(0 <= index < |contacts|) || range.None? {
        return None;
      }
      ghost var s0 := State();
      var contact := contacts[index];
      var displayName := if contact.name != "" then contact.name else contact.email;
      var email := contact.email;
      var mention := Mention(email, displayName, trigger + displayName);
      var sp := range.value;
      if !sp.Nested? {
        InsertMention(sp, mention);
      }
      HideDropdown();
      if !sp.Nested? {
        sel := Caret(InText(AnchorIndex(sp), 1));
      }
      request := Some(EnsureRecipientInTo(email, displayName));
      SelectedCommits(s0, index, trigger);
      assert Selected(s0, index, trigger).0 == Session(doc, sel, false, -1, [], "", None);
    }

    /** The range's text replaced by the token and its anchor. */
    method InsertMention(sp: Span, mention: Node)
      requires SpanValid(doc, sp) && !sp.Nested?
      modifies this
      ensures trigger == old(trigger)
      ensures State() == Session(CommitDoc(old(doc), sp, mention, Zws), old(sel),
        old(visible), old(selectedIndex), old(contacts), old(query), old(range))
    {
      CommitSteps(doc, sp, mention, Zws);
      var (d1, collapsed) := DeleteContents(doc, sp);
      var (d2, at) := InsertNode(d1, collapsed, mention);
      doc := InsertAfter(d2, at, Text(Zws));
    }

    /** The first half of handleMentionBackspace: the index of the token to act on, or -1. */
    method FindMention() returns (m: int)
      requires SelValid(doc, sel)
      ensures m == match Target(doc, sel) case Some(k) => k as int case None => -1
    {
      m := -1;
      if !sel.Caret? {
        return;
      }
      match sel.pos {
        case InText(i, off) =>
          var text := doc[i].content;
          var isZwsAnchor := text == Zws || (off <= 1 && StartsWith(text, Zws));
          if off == 0 || isZwsAnchor {
            if i > 0 && doc[i - 1].Mention? {
              m := i - 1;
            }
          }
        case Between(off) =>
          if off > 0 {
            var child := doc[off - 1];
            if child.Text? && child.content == Zws {
              if off >= 2 && doc[off - 2].Mention? {
                m := off - 2;
              }
            } else if child.Mention? {
              m := off - 1;
            }
          }
      }
    }

    /** handleMentionBackspace: whether a token next to the caret was shrunk or removed. */
    method HandleMentionBackspace() returns (handled: bool)
      requires Valid()
      modifies this
      ensures Valid() && trigger == old(trigger)
      ensures handled == Target(old(doc), old(sel)).Some?
      ensures State() == if handled then Backspaced(old(State()), trigger) else old(State())
    {
      var m := FindMention();
      if m < 0 {
        return false;
      }
      if |SplitWs(doc[m].name)| > 1 {
        ShrinkMention(m);
      } else {
        RemoveMention(m);
      }
      return true;
    }

    /** The shrinking branch of handleMentionBackspace: the token's name loses its last word. */
    method ShrinkMention(m: nat)
      requires Valid() && Target(doc, sel) == Some(m) && |SplitWs(doc[m].name)| > 1
      modifies this
      ensures Valid() && trigger == old(trigger)
      ensures State() == Backspaced(old(State()), trigger)
    {
      ghost var s0 := State();
      var mention := doc[m];
      var words := SplitWs(mention.name);
      var newName := JoinSp(words[..|words| - 1]);
      doc := doc[m := Mention(mention.email, newName, trigger + newName)];
      ShrinkEffect(s0, trigger, m);
    }

    /** The removal branch of handleMentionBackspace: the token and a following anchor go, and the caret is placed where the token was. */
    method RemoveMention(m: nat)
      requires Valid() && Target(doc, sel) == Some(m) && |SplitWs(doc[m].name)| <= 1
      modifies this
      ensures Valid() && trigger == old(trigger)
      ensures State() == Backspaced(old(State()), trigger)
    {
      ghost var s0 := State();
      ghost var t := Backspaced(s0, trigger);
      RemovalEffect(s0, trigger, m);
      var caret := CaretAfterRemoval(doc, m);
      var d, r := doc, range;
      if m + 1 < |d| && d[m + 1] == Text(Zws) {
        d := RemoveAt(d, m + 1);
        r := RangeAfterRemoval(r, m + 1);
      }
      d := RemoveAt(d, m);
      r := RangeAfterRemoval(r, m);
      assert d == t.doc && r == t.range;
      doc, range, sel := d, r, Caret(caret);
    }

    /** handleKeyDown: whether the key's default action is prevented, and any message sent. */
    method HandleKeyDown(key: Key) returns (prevented: bool, request: Option<Request>)
      requires Valid()
      modifies this
      ensures Valid() && trigger == old(trigger)
      ensures Outcome(State(), prevented, request) == KeyDown(old(State()), key, trigger)
    {
      if key == Backspace {
        var handled := HandleMentionBackspace();
        if handled {
          return true, None;
        }
      }
      if !visible {
        return false, None;
      }
      match key {
        case ArrowDown =>
          selectedIndex := Min(selectedIndex + 1, |contacts| - 1);
          return true, None;
        case ArrowUp =>
          selectedIndex := Max(selectedIndex - 1, 0);
          return true, None;
        case Enter =>
          if selectedIndex >= 0 && |contacts| > 0 {
            request := SelectContact(selectedIndex);
            return true, request;
          }
          return false, None;
        case Tab =>
          if selectedIndex >= 0 && |contacts| > 0 {
            request := SelectContact(selectedIndex);
            return true, request;
          }
          return false, None;
        case Escape =>
          HideDropdown();
          return true, None;
        case _ =>
          return false, None;
      }
    }
  }
}
