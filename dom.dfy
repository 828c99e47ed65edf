/**
 * The trigger detector shared by both compose scripts: from a collapsed
 * caret, find the text before it (descending into the nearest preceding
 * element when the caret sits between nodes), scan that text backward for the
 * nearest trigger character and, when that character starts a word, report
 * the query typed after it together with the span it occupies.
 *
 * The document is a small node tree. `Mention` is the token element the
 * editor inserts (a span holding a link whose only text is `caption`); `Other`
 * is any node that is neither text nor an element, such as a comment.
 */
module Dom {
  import opened Wrappers
  import opened Strings

  /** The longest query the detector accepts. */
  const MaxQuery: nat := 50

  datatype Node =
    | Text(content: string)
    | Elem(children: seq<Node>)
    | Mention(email: string, name: string, caption: string)
    | Other

  /** The node holding the caret: a text node, or an element given by its children. */
  datatype Container = TextNode(text: string) | ElementNode(children: seq<Node>)

  /** The first range of the window's selection, if there is one. */
  datatype Cursor = NoRange | Range(container: Container, offset: nat, collapsed: bool)

  function Length(c: Container): nat {
    match c
    case TextNode(t) => |t|
    case ElementNode(cs) => |cs|
  }

  /** A DOM boundary offset never exceeds the length of its container. */
  predicate WellPlaced(c: Cursor) {
    c.Range? ==> c.offset <= Length(c.container)
  }

  /** Where the text the detector read lies: in the caret's own text node, or in the subtree of child `index`. */
  datatype Site = Here | Child(index: nat)

  /**
   * What the detector reports: the query, the whole text of the node it was
   * found in, and the span [start, end) of that text covering trigger and query.
   */
  datatype Found = Found(query: string, text: string, start: nat, end: nat, site: Site)

  /** The content of the last text node of `n` in document order (getLastTextNode). */
  function LastText(n: Node): (r: Option<string>)
    ensures n.Text? ==> r == Some(n.content)
    ensures n.Other? ==> r.None?
    ensures n.Elem? ==> r == LastTextOf(n.children)
    ensures n.Mention? && n.caption != "" ==> r == Some(n.caption)
    ensures n.Mention? && n.caption == "" ==> r.None?
  {
    match n
    case Text(s) => Some(s)
    case Elem(cs) => LastTextOf(cs)
    case Mention(_, _, caption) => if caption == "" then None else Some(caption)
    case Other => None
  }

  /** The last text of the last child that has one (its facts are LastTextOfFinds). */
  function LastTextOf(cs: seq<Node>): Option<string> {
    if cs == [] then None
    else match LastText(cs[|cs| - 1])
      case Some(t) => Some(t)
      case None => LastTextOf(cs[..|cs| - 1])
  }

  /** Some child's last text, with no text in the children after it; or no child has any text. */
  lemma {:induction false} LastTextOfFinds(cs: seq<Node>)
    ensures LastTextOf(cs).Some? ==> exists k :: 0 <= k < |cs| && LastText(cs[k]) == LastTextOf(cs) &&
                                       forall j :: k < j < |cs| ==> LastText(cs[j]).None?
    ensures LastTextOf(cs).None? ==> forall j :: 0 <= j < |cs| ==> LastText(cs[j]).None?
    decreases |cs|
  {
    if cs != [] && LastText(cs[|cs| - 1]).None? {
      var init := cs[..|cs| - 1];
      LastTextOfFinds(init);
      assert forall j :: 0 <= j < |init| ==> init[j] == cs[j];
    }
  }

  /**
   * findPreviousTextNode: the nearest child before `off` whose subtree holds
   * a text node, with that child's last text.
   */
  function PrevText(cs: seq<Node>, off: nat): (r: Option<(nat, string)>)
    requires off <= |cs|
    ensures r.Some? ==> r.value.0 < off && LastText(cs[r.value.0]) == Some(r.value.1) &&
                        forall j :: r.value.0 < j < off ==> LastText(cs[j]).None?
    ensures r.None? ==> forall j :: 0 <= j < off ==> LastText(cs[j]).None?
  {
    if off == 0 then None
    else match LastText(cs[off - 1])
      case Some(t) => Some((off - 1, t))
      case None => PrevText(cs, off - 1)
  }

  /** The source compares one character of the text with the whole trigger string. */
  predicate IsTriggerChar(c: char, trigger: string) {
    |trigger| == 1 && c == trigger[0]
  }

  /** The index of the last trigger character in `t`. */
  function LastOccurrence(t: string, trigger: string): (r: Option<nat>)
    ensures r.Some? ==> r.value < |t| && IsTriggerChar(t[r.value], trigger) &&
                        forall j :: r.value < j < |t| ==> !IsTriggerChar(t[j], trigger)
    ensures r.None? ==> forall j :: 0 <= j < |t| ==> !IsTriggerChar(t[j], trigger)
  {
    if t == [] then None
    else if IsTriggerChar(t[|t| - 1], trigger) then Some(|t| - 1)
    else
      var r := LastOccurrence(t[..|t| - 1], trigger);
      assert forall j :: 0 <= j < |t| - 1 ==> t[..|t| - 1][j] == t[j];
      r
  }

  /** A trigger character with none after it is the last occurrence. */
  lemma LastOccurrenceAt(t: string, trigger: string, i: nat)
    requires i < |t| && IsTriggerChar(t[i], trigger)
    requires forall j :: i < j < |t| ==> !IsTriggerChar(t[j], trigger)
    ensures LastOccurrence(t, trigger) == Some(i)
  {
  }

  /** The nearest trigger character counts only at the start of the text or after a space character. */
  function TriggerIndex(t: string, trigger: string): Option<nat> {
    match LastOccurrence(t, trigger)
    case Some(i) => if i == 0 || IsSpace(t[i - 1]) then Some(i) else None
    case None => None
  }

  /** The text the detector reads, the offset it reads it up to, and where it lies. */
  function Resolve(c: Cursor): (r: Option<(string, nat, Site)>)
    requires c.Range? && WellPlaced(c)
    ensures r.Some? ==> r.value.1 <= |r.value.0|
  {
    match c.container
    case TextNode(t) => Some((t, c.offset, Here))
    case ElementNode(cs) =>
      match PrevText(cs, c.offset)
      case None => None
      case Some((k, t)) => Some((t, |t|, Child(k)))
  }

  lemma SliceAfter(t: string, i: nat, off: nat)
    requires i < off <= |t|
    ensures t[i..off] == [t[i]] + t[..off][i + 1..]
  {
  }

  /** findAtTrigger. */
  function Detect(c: Cursor, trigger: string): (r: Option<Found>)
    requires WellPlaced(c)
    ensures (c.NoRange? || !c.collapsed) ==> r.None?
    ensures r.Some? ==> c.Range? && Resolve(c).Some? && r.value.text == Resolve(c).value.0 &&
                        r.value.end == Resolve(c).value.1 && r.value.site == Resolve(c).value.2
    ensures r.Some? ==>
      var f := r.value;
      f.start < f.end <= |f.text| &&
      f.text[f.start..f.end] == trigger + f.query &&
      (f.start == 0 || IsSpace(f.text[f.start - 1])) &&
      (forall j :: 0 <= j < |f.query| ==> !IsTriggerChar(f.query[j], trigger)) &&
      |f.query| <= MaxQuery
  {
    if c.NoRange? || !c.collapsed || Resolve(c).None? then None
    else
      var t, off, site := Resolve(c).value.0, Resolve(c).value.1, Resolve(c).value.2;
      var text := t[..off];
      match TriggerIndex(text, trigger)
      case None => None
      case Some(i) =>
        var q := text[i + 1..];
        if |q| > MaxQuery then None
        else
          SliceAfter(t, i, off);
          QueryHasNoTrigger(text, trigger, i, q);
          Some(Found(q, t, i, off, site))
  }

  /** What follows the last trigger character holds no trigger character. */
  lemma QueryHasNoTrigger(text: string, trigger: string, i: nat, q: string)
    requires LastOccurrence(text, trigger) == Some(i) && q == text[i + 1..]
    ensures forall j :: 0 <= j < |q| ==> !IsTriggerChar(q[j], trigger)
  {
    assert forall j :: 0 <= j < |q| ==> q[j] == text[i + 1 + j];
  }

  /** A trigger string that is not exactly one character never matches. */
  lemma MultiCharTriggerNeverFires(c: Cursor, trigger: string)
    requires WellPlaced(c) && |trigger| != 1
    ensures Detect(c, trigger).None?
  {
    if c.Range? && c.collapsed && Resolve(c).Some? {
      var (t, off, site) := Resolve(c).value;
      assert LastOccurrence(t[..off], trigger).None?;
    }
  }

  /** Only the nearest trigger character is considered: when it is glued to a word, nothing is reported. */
  lemma NearestGluedStops(c: Cursor, trigger: string, t: string, off: nat, site: Site, i: nat)
    requires WellPlaced(c) && c.Range? && c.collapsed
    requires Resolve(c) == Some((t, off, site))
    requires LastOccurrence(t[..off], trigger) == Some(i)
    requires i > 0 && !IsSpace(t[i - 1])
    ensures Detect(c, trigger).None?
  {
  }

  /**
   * What the detector reports, both directions: it reports the span starting
   * at `i` exactly when `t[i]` is the trigger, `i` starts a word, no trigger
   * character lies between `i` and the caret, and the query fits.
   */
  lemma DetectExactly(c: Cursor, trigger: string, t: string, off: nat, site: Site, i: nat)
    requires WellPlaced(c) && c.Range? && c.collapsed
    requires Resolve(c) == Some((t, off, site))
    ensures (i < off && Detect(c, trigger) == Some(Found(t[i + 1..off], t, i, off, site))) <==>
      (i < off && IsTriggerChar(t[i], trigger) && (i == 0 || IsSpace(t[i - 1])) &&
       (forall j :: i < j < off ==> !IsTriggerChar(t[j], trigger)) &&
       off - (i + 1) <= MaxQuery)
  {
    if i < off && IsTriggerChar(t[i], trigger) && (forall j :: i < j < off ==> !IsTriggerChar(t[j], trigger)) {
      DetectsLastTrigger(trigger, t, off, i);
    }
    if i < off && Detect(c, trigger) == Some(Found(t[i + 1..off], t, i, off, site)) {
      DetectedIsLastTrigger(c, trigger, t, off, site, i);
    }
  }

  /** DetectExactly's conditions for a report of the span that starts at `i`. */
  predicate Reportable(t: string, off: nat, trigger: string, i: nat)
    requires off <= |t|
  {
    i < off && IsTriggerChar(t[i], trigger) && (i == 0 || IsSpace(t[i - 1])) &&
    (forall j :: i < j < off ==> !IsTriggerChar(t[j], trigger)) && off - (i + 1) <= MaxQuery
  }

  /** The detector reports nothing exactly when no index before the caret is reportable. */
  lemma DetectsNothing(c: Cursor, trigger: string, t: string, off: nat, site: Site)
    requires WellPlaced(c) && c.Range? && c.collapsed
    requires Resolve(c) == Some((t, off, site))
    ensures Detect(c, trigger).None? <==> forall i :: 0 <= i < off ==> !Reportable(t, off, trigger, i)
  {
    var r := Detect(c, trigger);
    if r.Some? {
      var start := r.value.start;
      assert r.value == Found(t[start + 1..off], t, start, off, site);
      DetectExactly(c, trigger, t, off, site, start);
      assert Reportable(t, off, trigger, start);
    } else {
      forall i | 0 <= i < off
        ensures !Reportable(t, off, trigger, i)
      {
        DetectExactly(c, trigger, t, off, site, i);
      }
    }
  }

  /** A trigger at `i` with none after it before the caret is the last one the detector finds. */
  lemma DetectsLastTrigger(trigger: string, t: string, off: nat, i: nat)
    requires off <= |t| && i < off && IsTriggerChar(t[i], trigger)
    requires forall j :: i < j < off ==> !IsTriggerChar(t[j], trigger)
    ensures LastOccurrence(t[..off], trigger) == Some(i) && t[..off][i + 1..] == t[i + 1..off]
  {
    var text := t[..off];
    assert text[i] == t[i];
    LastOccurrenceAt(text, trigger, i);
    assert text[i + 1..] == t[i + 1..off];
  }

  /** A reported span starts at a trigger with none after it before the caret. */
  lemma DetectedIsLastTrigger(c: Cursor, trigger: string, t: string, off: nat, site: Site, i: nat)
    requires WellPlaced(c) && c.Range? && c.collapsed
    requires Resolve(c) == Some((t, off, site))
    requires i < off && Detect(c, trigger) == Some(Found(t[i + 1..off], t, i, off, site))
    ensures IsTriggerChar(t[i], trigger) && forall j :: i < j < off ==> !IsTriggerChar(t[j], trigger)
  {
    var text := t[..off];
    var k :| TriggerIndex(text, trigger) == Some(k);
    assert k == i;
    assert text[i] == t[i];
    forall j | i < j < off
      ensures !IsTriggerChar(t[j], trigger)
    {
      assert text[j] == t[j];
    }
  }

  /** One step of the reverse walk over children. */
  lemma LastTextOfStep(cs: seq<Node>, i: nat)
    requires 0 < i <= |cs|
    ensures LastText(cs[i - 1]).Some? ==> LastTextOf(cs[..i]) == LastText(cs[i - 1])
    ensures LastText(cs[i - 1]).None? ==> LastTextOf(cs[..i]) == LastTextOf(cs[..i - 1])
  {
    assert cs[..i][..i - 1] == cs[..i - 1];
  }

  /** getLastTextNode. */
  method GetLastTextNode(n: Node) returns (r: Option<string>)
    ensures r == LastText(n)
    decreases n
  {
    match n
    case Text(s) =>
      return Some(s);
    case Elem(cs) =>
      var i := |cs|;
      assert cs[..i] == cs;
      while i > 0
        invariant 0 <= i <= |cs|
        invariant LastTextOf(cs) == LastTextOf(cs[..i])
      {
        var t := GetLastTextNode(cs[i - 1]);
        LastTextOfStep(cs, i);
        if t.Some? {
          return t;
        }
        i := i - 1;
      }
      return None;
    case Mention(_, _, caption) =>
      // The token's only text node is its link's caption; an empty caption has none.
      if caption == "" {
        return None;
      }
      return Some(caption);
    case Other =>
      return None;
  }

  /** findPreviousTextNode: the index of the child and the text found. */
  method FindPreviousTextNode(cs: seq<Node>, off: nat) returns (r: Option<(nat, string)>)
    requires off <= |cs|
    ensures r == PrevText(cs, off)
  {
    var i := off;
    while i > 0
      invariant 0 <= i <= off
      invariant PrevText(cs, off) == PrevText(cs, i)
    {
      var child := cs[i - 1];
      if child.Text? {
        return Some((i - 1, child.content));
      }
      if child.Elem? || child.Mention? {
        var t := GetLastTextNode(child);
        if t.Some? {
          return Some((i - 1, t.value));
        }
      }
      i := i - 1;
    }
    return None;
  }

  /** The backward scan for the trigger character: its index, or -1. */
  method ScanForTrigger(text: string, trigger: string) returns (atIndex: int)
    ensures atIndex == match TriggerIndex(text, trigger) case Some(i) => i as int case None => -1
  {
    atIndex := -1;
    var i := |text| - 1;
    while i >= 0
      invariant -1 <= i < |text|
      invariant forall j :: i < j < |text| ==> !IsTriggerChar(text[j], trigger)
    {
      if |trigger| == 1 && text[i] == trigger[0] {
        LastOccurrenceAt(text, trigger, i);
        if i == 0 || IsSpace(text[i - 1]) {
          atIndex := i;
          return;
        } else {
          return;
        }
      }
      i := i - 1;
    }
  }

  /** findAtTrigger, step by step. */
  method FindAtTrigger(c: Cursor, trigger: string) returns (r: Option<Found>)
    requires WellPlaced(c)
    ensures r == Detect(c, trigger)
  {
    if c.NoRange? || !c.collapsed {
      return None;
    }
    var t: string, off: nat, site: Site;
    match c.container {
      case TextNode(s) =>
        t, off, site := s, c.offset, Here;
      case ElementNode(cs) =>
        var p := FindPreviousTextNode(cs, c.offset);
        if p.None? {
          return None;
        }
        t, off, site := p.value.1, |p.value.1|, Child(p.value.0);
    }
    var text := t[..off];
    var atIndex := ScanForTrigger(text, trigger);
    if atIndex == -1 {
      return None;
    }
    var query := text[atIndex + 1..];
    if |query| > MaxQuery {
      return None;
    }
    return Some(Found(query, t, atIndex as nat, off, site));
  }
}
