/**
 * The autocomplete session both compose scripts keep in module variables
 * (`selectedIndex`, `currentContacts`, `currentQuery`, `atTriggerRange`, and
 * whether the dropdown is shown), with the transitions the two variants share:
 * input, the contacts reply, show, hide, hovering an item and the arrow keys.
 * Each transition is a function of the old session; the editors' methods are
 * proved to perform exactly these transitions.
 */
module Dropdown {
  import opened Wrappers
  import opened Strings
  import opened Dom
  import opened Document

  datatype Session = Session(
    doc: seq<Node>,
    sel: Sel,
    visible: bool,
    selectedIndex: int,
    contacts: seq<Contact>,
    query: string,
    range: Option<Span>)

  /** The reply to the contacts request: the call threw, or it answered (possibly with nothing). */
  datatype ContactsReply = Failed | Replied(list: Option<seq<Contact>>)

  /**
   * What every transition keeps: the caret and the stored range point into
   * the document; a shown dropdown has a selected item; a hidden one has no
   * contacts and no selection.
   */
  predicate Inv(s: Session) {
    SelValid(s.doc, s.sel) &&
    (s.range.Some? ==> SpanValid(s.doc, s.range.value)) &&
    (s.visible ==> 0 <= s.selectedIndex < |s.contacts|) &&
    (!s.visible ==> s.selectedIndex == -1 && s.contacts == [])
  }

  /** The state hideDropdown leaves. */
  predicate Idle(s: Session) {
    !s.visible && s.selectedIndex == -1 && s.contacts == [] && s.query == "" && s.range.None?
  }

  /** The session before any input. */
  function Start(doc: seq<Node>, sel: Sel): (s: Session)
    ensures Idle(s) && s.doc == doc && s.sel == sel
  {
    Session(doc, sel, false, -1, [], "", None)
  }

  /** hideDropdown. */
  function Hidden(s: Session): (r: Session)
    ensures Idle(r) && r.doc == s.doc && r.sel == s.sel
  {
    s.(visible := false, selectedIndex := -1, contacts := [], query := "", range := None)
  }

  /** showDropdown over the current contacts. */
  function Shown(s: Session): Session {
    if |s.contacts| == 0 then Hidden(s) else s.(visible := true, selectedIndex := 0)
  }

  /** handleInput: the new session and the query to fetch contacts for, if any. */
  function Input(s: Session, doc: seq<Node>, sel: Sel, trigger: string): (Session, Option<string>)
    requires SelValid(doc, sel)
  {
    var t := s.(doc := doc, sel := sel);
    match Detect(ToCursor(doc, sel), trigger)
    case Some(f) => (t.(query := f.query, range := Some(SpanOf(doc, sel, f))), Some(f.query))
    case None => (Hidden(t), None)
  }

  /** fetchAndShowContacts, once its request is answered. */
  function Receive(s: Session, reply: ContactsReply): Session {
    match reply
    case Failed => Hidden(s)
    case Replied(list) => Shown(s.(contacts := list.GetOr([])))
  }

  /** The mouseenter handler of item `index`; items exist only while the dropdown is shown. */
  function Hovered(s: Session, index: int): Session {
    if s.visible && 0 <= index < |s.contacts| then s.(selectedIndex := index) else s
  }

  function Min(a: int, b: int): int { if a <= b then a else b }

  function Max(a: int, b: int): int { if a >= b then a else b }

  function Down(s: Session): Session {
    s.(selectedIndex := Min(s.selectedIndex + 1, |s.contacts| - 1))
  }

  function Up(s: Session): Session {
    s.(selectedIndex := Max(s.selectedIndex - 1, 0))
  }

  /** A click outside the dropdown ends the session. */
  function Clicked(s: Session, insideDropdown: bool): Session {
    if insideDropdown then s else Hidden(s)
  }

  /** Hiding keeps the invariant, from any session whose caret and range are in place. */
  lemma HiddenInv(s: Session)
    requires SelValid(s.doc, s.sel)
    ensures Inv(Hidden(s))
  {
  }

  /** Input keeps the invariant; a reported query is what the detector found, and without one the session ends. */
  lemma InputInv(s: Session, doc: seq<Node>, sel: Sel, trigger: string)
    requires Inv(s) && SelValid(doc, sel)
    ensures var (t, fetch) := Input(s, doc, sel, trigger);
      Inv(t) && t.doc == doc && t.sel == sel &&
      (fetch.Some? <==> Detect(ToCursor(doc, sel), trigger).Some?) &&
      (fetch.Some? ==>
        fetch.value == t.query && |t.query| <= MaxQuery &&
        t.visible == s.visible && t.contacts == s.contacts && t.selectedIndex == s.selectedIndex) &&
      (fetch.None? ==> Idle(t))
  {
    if Detect(ToCursor(doc, sel), trigger).Some? {
      DetectedSpan(doc, sel, trigger);
    }
  }

  /**
   * The reply shows the dropdown exactly when it holds contacts, and then
   * selects the first one; any other reply ends the session.
   */
  lemma ReceiveShows(s: Session, reply: ContactsReply)
    requires Inv(s)
    ensures var t := Receive(s, reply);
      Inv(t) && t.doc == s.doc && t.sel == s.sel &&
      (t.visible <==> reply.Replied? && reply.list.Some? && reply.list.value != []) &&
      (t.visible ==>
        t.selectedIndex == 0 && t.contacts == reply.list.value &&
        t.query == s.query && t.range == s.range) &&
      (!t.visible ==> Idle(t))
  {
  }

  /** The arrow keys move the selection by one and stop at the first and the last item. */
  lemma ArrowsClamp(s: Session)
    requires Inv(s) && s.visible
    ensures Inv(Down(s)) && Inv(Up(s))
    ensures Down(s).selectedIndex == if s.selectedIndex < |s.contacts| - 1 then s.selectedIndex + 1 else |s.contacts| - 1
    ensures Up(s).selectedIndex == if s.selectedIndex > 0 then s.selectedIndex - 1 else 0
  {
  }

  lemma HoveredInv(s: Session, index: int)
    requires Inv(s)
    ensures Inv(Hovered(s, index))
    ensures s.visible && 0 <= index < |s.contacts| ==> Hovered(s, index).selectedIndex == index
  {
  }
}
