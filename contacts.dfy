/**
 * The contact list the background scripts build for the dropdown: a table
 * keyed by lowercased address in insertion order (a JavaScript Map), the
 * sources merged into it, the sort and the cut to the result limit.
 */
module Contacts {
  import opened Wrappers
  import opened Strings
  import opened Recipients

  /** A dropdown entry. */
  datatype Candidate = Candidate(name: string, email: string, isRecipient: bool)

  /** A contact the user added on the options page. */
  datatype CustomContact = CustomContact(name: string, email: string)

  /** A Map from key to candidate: entries in insertion order. */
  type Table = seq<(string, Candidate)>

  function Key(c: Candidate): string {
    Lower(c.email)
  }

  /** Each key once, and each entry under its candidate's lowercased address. */
  predicate TableValid(m: Table) {
    (forall i, j :: 0 <= i < j < |m| ==> m[i].0 != m[j].0) &&
    (forall i :: 0 <= i < |m| ==> m[i].0 == Key(m[i].1))
  }

  /** The position of `key`, or |m|. */
  function Slot(m: Table, key: string): (r: nat)
    ensures r <= |m|
    ensures r < |m| ==> m[r].0 == key
    ensures forall i :: 0 <= i < r ==> m[i].0 != key
  {
    if m == [] then 0 else if m[0].0 == key then 0 else 1 + Slot(m[1..], key)
  }

  /** `Map.has`. */
  predicate Has(m: Table, key: string) {
    Slot(m, key) < |m|
  }

  /** `Map.set`: a present key keeps its place and takes the new value; a new key goes last. */
  function Put(m: Table, key: string, v: Candidate): (r: Table)
    ensures Has(m, key) ==> |r| == |m| && r[Slot(m, key)] == (key, v)
    ensures Has(m, key) ==> forall i :: 0 <= i < |m| && i != Slot(m, key) ==> r[i] == m[i]
    ensures !Has(m, key) ==> r == m + [(key, v)]
  {
    var i := Slot(m, key);
    if i < |m| then m[i := (key, v)] else m + [(key, v)]
  }

  lemma SlotIs(m: Table, key: string, k: nat)
    requires k <= |m| && (k < |m| ==> m[k].0 == key)
    requires forall i :: 0 <= i < k ==> m[i].0 != key
    ensures Slot(m, key) == k
  {
  }

  function Lookup(m: Table, key: string): Option<Candidate> {
    var i := Slot(m, key);
    if i < |m| then Some(m[i].1) else None
  }

  /** Setting a key under its own candidate's address keeps the table valid, and the key then maps to it. */
  lemma PutValid(m: Table, v: Candidate)
    requires TableValid(m)
    ensures TableValid(Put(m, Key(v), v))
    ensures Lookup(Put(m, Key(v), v), Key(v)) == Some(v)
  {
    var r := Put(m, Key(v), v);
    var k := Slot(m, Key(v));
    if k == |m| {
      assert forall i :: 0 <= i < |m| ==> r[i] == m[i];
    }
    SlotIs(r, Key(v), k);
  }

  /** `Array.from(map.values())`. */
  function Values(m: Table): (r: seq<Candidate>)
    ensures |r| == |m| && forall i :: 0 <= i < |m| ==> r[i] == m[i].1
  {
    seq(|m|, i requires 0 <= i < |m| => m[i].1)
  }

  // ---------------------------------------------------------------- filters

  /** One blocklist entry blocks the contact when it occurs, ignoring case, in the name or the address. */
  predicate BlockedBy(name: string, email: string, entry: string) {
    Contains(Lower(name), Lower(entry)) || Contains(Lower(email), Lower(entry))
  }

  predicate Blocked(name: string, email: string, blocklist: seq<string>) {
    exists i | 0 <= i < |blocklist| :: BlockedBy(name, email, blocklist[i])
  }

  /** An empty entry blocks every contact. */
  lemma EmptyEntryBlocksAll(name: string, email: string, blocklist: seq<string>)
    requires "" in blocklist
    ensures Blocked(name, email, blocklist)
  {
    var i :| 0 <= i < |blocklist| && blocklist[i] == "";
    assert OccursAt(Lower(name), Lower(""), 0);
  }

  /** A candidate passes when it matches the query and no entry blocks it. */
  predicate Admitted(c: Candidate, query: string, blocklist: seq<string>) {
    MatchesQuery(c.name, c.email, query) && !Blocked(c.name, c.email, blocklist)
  }

  // ---------------------------------------------------------------- sources

  /** Offer a candidate under its lowercased address; `replace` says whether it may overwrite a present key. */
  function Offer(m: Table, c: Candidate, query: string, blocklist: seq<string>, replace: bool): Table {
    if (replace || !Has(m, Key(c))) && Admitted(c, query, blocklist) then Put(m, Key(c), c) else m
  }

  /** A recipient field entry: parsed, then offered as a recipient that overwrites. */
  function OfferRecipient(m: Table, e: Entry, query: string, blocklist: seq<string>): Table {
    match ParseRecipient(e)
    case None => m
    case Some(p) => Offer(m, Candidate(p.name, p.email, true), query, blocklist, true)
  }

  function AddRecipients(m: Table, rs: seq<Entry>, query: string, blocklist: seq<string>): Table {
    if rs == [] then m
    else OfferRecipient(AddRecipients(m, rs[..|rs| - 1], query, blocklist), rs[|rs| - 1], query, blocklist)
  }

  /** Merging two runs of recipient entries is merging the first, then the second. */
  lemma {:induction false} AddRecipientsAppend(m: Table, a: seq<Entry>, b: seq<Entry>, query: string, blocklist: seq<string>)
    ensures AddRecipients(m, a + b, query, blocklist) == AddRecipients(AddRecipients(m, a, query, blocklist), b, query, blocklist)
    decreases |b|
  {
    if b == [] {
      assert a + b == a;
    } else {
      assert (a + b)[..|a + b| - 1] == a + b[..|b| - 1];
      AddRecipientsAppend(m, a, b[..|b| - 1], query, blocklist);
    }
  }

  /** The addresses of one address-book card, each offered without overwriting. */
  function AddEmails(m: Table, name: string, emails: seq<string>, query: string, blocklist: seq<string>): Table {
    if emails == [] then m
    else Offer(AddEmails(m, name, emails[..|emails| - 1], query, blocklist),
               Candidate(name, emails[|emails| - 1], false), query, blocklist, false)
  }

  function AddCards(m: Table, cards: seq<string>, query: string, blocklist: seq<string>): Table {
    if cards == [] then m
    else
      var (name, emails) := VCard(cards[|cards| - 1]);
      AddEmails(AddCards(m, cards[..|cards| - 1], query, blocklist), name, emails, query, blocklist)
  }

  function AddCustom(m: Table, cs: seq<CustomContact>, query: string, blocklist: seq<string>): Table {
    if cs == [] then m
    else
      var c := cs[|cs| - 1];
      Offer(AddCustom(m, cs[..|cs| - 1], query, blocklist), Candidate(c.name, c.email, false), query, blocklist, false)
  }

  /** The table after recipients, then address-book cards, then custom contacts (a skipped source is empty). */
  function Gather(rs: seq<Entry>, cards: seq<string>, custom: seq<CustomContact>, query: string, blocklist: seq<string>): Table {
    AddCustom(AddCards(AddRecipients([], rs, query, blocklist), cards, query, blocklist), custom, query, blocklist)
  }

  /** The invariant every source keeps: a valid table of admitted candidates. */
  predicate Good(m: Table, query: string, blocklist: seq<string>) {
    TableValid(m) && forall i :: 0 <= i < |m| ==> Admitted(m[i].1, query, blocklist)
  }

  lemma OfferGood(m: Table, c: Candidate, query: string, blocklist: seq<string>, replace: bool)
    requires Good(m, query, blocklist)
    ensures Good(Offer(m, c, query, blocklist, replace), query, blocklist)
  {
    if (replace || !Has(m, Key(c))) && Admitted(c, query, blocklist) {
      PutValid(m, c);
    }
  }

  lemma {:induction false} AddRecipientsGood(m: Table, rs: seq<Entry>, query: string, blocklist: seq<string>)
    requires Good(m, query, blocklist)
    ensures Good(AddRecipients(m, rs, query, blocklist), query, blocklist)
  {
    if rs != [] {
      AddRecipientsGood(m, rs[..|rs| - 1], query, blocklist);
      var p := ParseRecipient(rs[|rs| - 1]);
      if p.Some? {
        OfferGood(AddRecipients(m, rs[..|rs| - 1], query, blocklist), Candidate(p.value.name, p.value.email, true), query, blocklist, true);
      }
    }
  }

  lemma {:induction false} AddEmailsGood(m: Table, name: string, emails: seq<string>, query: string, blocklist: seq<string>)
    requires Good(m, query, blocklist)
    ensures Good(AddEmails(m, name, emails, query, blocklist), query, blocklist)
  {
    if emails != [] {
      AddEmailsGood(m, name, emails[..|emails| - 1], query, blocklist);
      OfferGood(AddEmails(m, name, emails[..|emails| - 1], query, blocklist), Candidate(name, emails[|emails| - 1], false), query, blocklist, false);
    }
  }

  lemma {:induction false} AddCardsGood(m: Table, cards: seq<string>, query: string, blocklist: seq<string>)
    requires Good(m, query, blocklist)
    ensures Good(AddCards(m, cards, query, blocklist), query, blocklist)
  {
    if cards != [] {
      AddCardsGood(m, cards[..|cards| - 1], query, blocklist);
      var (name, emails) := VCard(cards[|cards| - 1]);
      AddEmailsGood(AddCards(m, cards[..|cards| - 1], query, blocklist), name, emails, query, blocklist);
    }
  }

  lemma {:induction false} AddCustomGood(m: Table, cs: seq<CustomContact>, query: string, blocklist: seq<string>)
    requires Good(m, query, blocklist)
    ensures Good(AddCustom(m, cs, query, blocklist), query, blocklist)
  {
    if cs != [] {
      AddCustomGood(m, cs[..|cs| - 1], query, blocklist);
      var c := cs[|cs| - 1];
      OfferGood(AddCustom(m, cs[..|cs| - 1], query, blocklist), Candidate(c.name, c.email, false), query, blocklist, false);
    }
  }

  /** Every gathered candidate matches the query and is not blocked, once per lowercased address. */
  lemma GatherGood(rs: seq<Entry>, cards: seq<string>, custom: seq<CustomContact>, query: string, blocklist: seq<string>)
    ensures Good(Gather(rs, cards, custom, query, blocklist), query, blocklist)
  {
    AddRecipientsGood([], rs, query, blocklist);
    AddCardsGood(AddRecipients([], rs, query, blocklist), cards, query, blocklist);
    AddCustomGood(AddCards(AddRecipients([], rs, query, blocklist), cards, query, blocklist), custom, query, blocklist);
  }

  /** Offers that may not overwrite leave every present key's candidate as it was. */
  lemma OfferKeeps(m: Table, c: Candidate, query: string, blocklist: seq<string>, key: string)
    requires Has(m, key)
    ensures var r := Offer(m, c, query, blocklist, false);
      Has(r, key) && Lookup(r, key) == Lookup(m, key)
  {
    var r := Offer(m, c, query, blocklist, false);
    if r != m {
      assert !Has(m, Key(c));
      assert r == m + [(Key(c), c)];
      assert Slot(r, key) == Slot(m, key) by {
        SlotPrefix(m, [(Key(c), c)], key);
      }
    }
  }

  lemma {:induction false} SlotPrefix(m: Table, t: Table, key: string)
    requires Has(m, key)
    ensures Slot(m + t, key) == Slot(m, key)
  {
    if m[0].0 != key {
      assert (m + t)[1..] == m[1..] + t;
      SlotPrefix(m[1..], t, key);
    }
  }

  lemma {:induction false} AddEmailsKeeps(m: Table, name: string, emails: seq<string>, query: string, blocklist: seq<string>, key: string)
    requires Has(m, key)
    ensures var r := AddEmails(m, name, emails, query, blocklist);
      Has(r, key) && Lookup(r, key) == Lookup(m, key)
  {
    if emails != [] {
      AddEmailsKeeps(m, name, emails[..|emails| - 1], query, blocklist, key);
      OfferKeeps(AddEmails(m, name, emails[..|emails| - 1], query, blocklist), Candidate(name, emails[|emails| - 1], false), query, blocklist, key);
    }
  }

  lemma {:induction false} AddCardsKeeps(m: Table, cards: seq<string>, query: string, blocklist: seq<string>, key: string)
    requires Has(m, key)
    ensures var r := AddCards(m, cards, query, blocklist);
      Has(r, key) && Lookup(r, key) == Lookup(m, key)
  {
    if cards != [] {
      AddCardsKeeps(m, cards[..|cards| - 1], query, blocklist, key);
      var (name, emails) := VCard(cards[|cards| - 1]);
      AddEmailsKeeps(AddCards(m, cards[..|cards| - 1], query, blocklist), name, emails, query, blocklist, key);
    }
  }

  lemma {:induction false} AddCustomKeeps(m: Table, cs: seq<CustomContact>, query: string, blocklist: seq<string>, key: string)
    requires Has(m, key)
    ensures var r := AddCustom(m, cs, query, blocklist);
      Has(r, key) && Lookup(r, key) == Lookup(m, key)
  {
    if cs != [] {
      AddCustomKeeps(m, cs[..|cs| - 1], query, blocklist, key);
      var c := cs[|cs| - 1];
      OfferKeeps(AddCustom(m, cs[..|cs| - 1], query, blocklist), Candidate(c.name, c.email, false), query, blocklist, key);
    }
  }

  /**
   * Address books and custom contacts never replace a recipient: the
   * candidate the recipient fields left under a key is the one gathered.
   */
  lemma RecipientsNotReplaced(rs: seq<Entry>, cards: seq<string>, custom: seq<CustomContact>, query: string, blocklist: seq<string>, key: string)
    requires Has(AddRecipients([], rs, query, blocklist), key)
    ensures Lookup(Gather(rs, cards, custom, query, blocklist), key) == Lookup(AddRecipients([], rs, query, blocklist), key)
  {
    var m1 := AddRecipients([], rs, query, blocklist);
    AddCardsKeeps(m1, cards, query, blocklist, key);
    AddCustomKeeps(AddCards(m1, cards, query, blocklist), custom, query, blocklist, key);
  }

  /** Among recipient entries, a later admitted one for the same address overwrites the earlier. */
  lemma RecipientLastWins(m: Table, rs: seq<Entry>, e: Entry, query: string, blocklist: seq<string>)
    requires TableValid(m) && ParseRecipient(e).Some?
    requires var p := ParseRecipient(e).value; Admitted(Candidate(p.name, p.email, true), query, blocklist)
    ensures var p := ParseRecipient(e).value;
      Lookup(AddRecipients(m, rs + [e], query, blocklist), Lower(p.email)) == Some(Candidate(p.name, p.email, true))
  {
    var p := ParseRecipient(e).value;
    var before := AddRecipients(m, rs, query, blocklist);
    assert (rs + [e])[..|rs|] == rs;
    PutSome(before, Candidate(p.name, p.email, true));
  }

  lemma PutSome(m: Table, v: Candidate)
    ensures Lookup(Put(m, Key(v), v), Key(v)) == Some(v)
  {
    var r := Put(m, Key(v), v);
    var k := Slot(m, Key(v));
    if k == |m| {
      assert forall i :: 0 <= i < |m| ==> r[i] == m[i];
    }
    SlotIs(r, Key(v), k);
  }

  /** No candidate in the table is a recipient. */
  predicate NoRecipient(m: Table) {
    forall i :: 0 <= i < |m| ==> !m[i].1.isRecipient
  }

  /** With no admitted recipient every candidate is a non-recipient; with no sources the table is empty. */
  lemma {:induction false} NonRecipientSources(m: Table, cards: seq<string>, custom: seq<CustomContact>, query: string, blocklist: seq<string>)
    requires NoRecipient(m)
    ensures NoRecipient(AddCustom(AddCards(m, cards, query, blocklist), custom, query, blocklist))
  {
    NoRecipientCards(m, cards, query, blocklist);
    NoRecipientCustom(AddCards(m, cards, query, blocklist), custom, query, blocklist);
  }

  lemma NoRecipientOffer(m: Table, c: Candidate, query: string, blocklist: seq<string>)
    requires !c.isRecipient && NoRecipient(m)
    ensures NoRecipient(Offer(m, c, query, blocklist, false))
  {
    var r := Offer(m, c, query, blocklist, false);
    if r != m {
      assert r == m + [(Key(c), c)];
    }
  }

  lemma {:induction false} NoRecipientEmails(m: Table, name: string, emails: seq<string>, query: string, blocklist: seq<string>)
    requires NoRecipient(m)
    ensures NoRecipient(AddEmails(m, name, emails, query, blocklist))
  {
    if emails != [] {
      NoRecipientEmails(m, name, emails[..|emails| - 1], query, blocklist);
      NoRecipientOffer(AddEmails(m, name, emails[..|emails| - 1], query, blocklist), Candidate(name, emails[|emails| - 1], false), query, blocklist);
    }
  }

  lemma {:induction false} NoRecipientCards(m: Table, cards: seq<string>, query: string, blocklist: seq<string>)
    requires NoRecipient(m)
    ensures NoRecipient(AddCards(m, cards, query, blocklist))
  {
    if cards != [] {
      NoRecipientCards(m, cards[..|cards| - 1], query, blocklist);
      var (name, emails) := VCard(cards[|cards| - 1]);
      NoRecipientEmails(AddCards(m, cards[..|cards| - 1], query, blocklist), name, emails, query, blocklist);
    }
  }

  lemma {:induction false} NoRecipientCustom(m: Table, cs: seq<CustomContact>, query: string, blocklist: seq<string>)
    requires NoRecipient(m)
    ensures NoRecipient(AddCustom(m, cs, query, blocklist))
  {
    if cs != [] {
      NoRecipientCustom(m, cs[..|cs| - 1], query, blocklist);
      var c := cs[|cs| - 1];
      NoRecipientOffer(AddCustom(m, cs[..|cs| - 1], query, blocklist), Candidate(c.name, c.email, false), query, blocklist);
    }
  }

  /** No recipient entries: every gathered candidate is a non-recipient. */
  lemma NoRecipientsGathered(cards: seq<string>, custom: seq<CustomContact>, query: string, blocklist: seq<string>)
    ensures NoRecipient(Gather([], cards, custom, query, blocklist))
  {
    NonRecipientSources([], cards, custom, query, blocklist);
  }

  /** No source at all gives no candidates. */
  lemma NothingGathered(query: string, blocklist: seq<string>)
    ensures Gather([], [], [], query, blocklist) == []
  {
  }

  // ---------------------------------------------------------------- order

  /** Code-point order on strings, shorter prefix first. */
  predicate Less(a: string, b: string)
    decreases |a|
  {
    if a == [] then b != []
    else if b == [] then false
    else if a[0] != b[0] then a[0] < b[0]
    else Less(a[1..], b[1..])
  }

  lemma {:induction false} LessIrreflexive(a: string)
    ensures !Less(a, a)
    decreases |a|
  {
    if a != [] {
      LessIrreflexive(a[1..]);
    }
  }

  lemma {:induction false} LessTransitive(a: string, b: string, c: string)
    requires Less(a, b) && Less(b, c)
    ensures Less(a, c)
    decreases |a|
  {
    if a != [] && b != [] && c != [] && a[0] == b[0] && b[0] == c[0] {
      LessTransitive(a[1..], b[1..], c[1..]);
    }
  }

  /** The key the comparator compares: `name || email`, lowercased in place of `localeCompare`. */
  function SortKey(c: Candidate): string {
    Lower(if c.name != "" then c.name else c.email)
  }

  /** The comparator's strict "comes first"; `recipientsFirst` puts recipients before everyone else. */
  predicate Before(a: Candidate, b: Candidate, recipientsFirst: bool) {
    if recipientsFirst && a.isRecipient != b.isRecipient then a.isRecipient
    else Less(SortKey(a), SortKey(b))
  }

  lemma BeforeIrreflexive(a: Candidate, recipientsFirst: bool)
    ensures !Before(a, a, recipientsFirst)
  {
    LessIrreflexive(SortKey(a));
  }

  lemma BeforeTransitive(a: Candidate, b: Candidate, c: Candidate, recipientsFirst: bool)
    requires Before(a, b, recipientsFirst) && Before(b, c, recipientsFirst)
    ensures Before(a, c, recipientsFirst)
  {
    if !recipientsFirst || (a.isRecipient == b.isRecipient && b.isRecipient == c.isRecipient) {
      LessTransitive(SortKey(a), SortKey(b), SortKey(c));
    }
  }

  predicate Sorted(s: seq<Candidate>, recipientsFirst: bool) {
    forall i, j :: 0 <= i < j < |s| ==> !Before(s[j], s[i], recipientsFirst)
  }

  /** Where the stable sort puts `x`: after every element it does not come before. */
  function Place(x: Candidate, s: seq<Candidate>, recipientsFirst: bool): (p: nat)
    ensures p <= |s|
    ensures forall i :: 0 <= i < p ==> !Before(x, s[i], recipientsFirst)
    ensures p < |s| ==> Before(x, s[p], recipientsFirst)
  {
    if s == [] then 0
    else if Before(x, s[0], recipientsFirst) then 0
    else 1 + Place(x, s[1..], recipientsFirst)
  }

  function Insert(x: Candidate, s: seq<Candidate>, recipientsFirst: bool): seq<Candidate> {
    var p := Place(x, s, recipientsFirst);
    s[..p] + [x] + s[p..]
  }

  /** `Array.prototype.sort` with the comparator (stable: ties keep their order). */
  function SortBy(s: seq<Candidate>, recipientsFirst: bool): seq<Candidate> {
    if s == [] then [] else Insert(s[|s| - 1], SortBy(s[..|s| - 1], recipientsFirst), recipientsFirst)
  }

  lemma SpliceShape(s: seq<Candidate>, p: nat, x: Candidate)
    requires p <= |s|
    ensures var r := s[..p] + [x] + s[p..];
      |r| == |s| + 1 && r[p] == x &&
      (forall i :: 0 <= i < p ==> r[i] == s[i]) &&
      (forall i :: p < i < |r| ==> r[i] == s[i - 1]) &&
      multiset(r) == multiset(s) + multiset{x}
  {
    var a, b := s[..p], s[p..];
    assert s == a + b;
    assert multiset(a + [x] + b) == multiset(a) + multiset{x} + multiset(b);
  }

  lemma InsertShape(x: Candidate, s: seq<Candidate>, recipientsFirst: bool)
    ensures var p := Place(x, s, recipientsFirst); var r := Insert(x, s, recipientsFirst);
      |r| == |s| + 1 && r[p] == x &&
      (forall i :: 0 <= i < p ==> r[i] == s[i]) &&
      (forall i :: p < i < |r| ==> r[i] == s[i - 1]) &&
      multiset(r) == multiset(s) + multiset{x}
  {
    SpliceShape(s, Place(x, s, recipientsFirst), x);
  }

  /** Everything at or after `x`'s place does not come before `x`. */
  lemma AfterPlace(x: Candidate, s: seq<Candidate>, recipientsFirst: bool, j: nat)
    requires Sorted(s, recipientsFirst) && Place(x, s, recipientsFirst) <= j < |s|
    ensures !Before(s[j], x, recipientsFirst)
  {
    var p := Place(x, s, recipientsFirst);
    if Before(s[j], x, recipientsFirst) {
      BeforeTransitive(s[j], x, s[p], recipientsFirst);
      if j == p {
        BeforeIrreflexive(s[p], recipientsFirst);
      }
    }
  }

  lemma InsertSorted(x: Candidate, s: seq<Candidate>, recipientsFirst: bool)
    requires Sorted(s, recipientsFirst)
    ensures Sorted(Insert(x, s, recipientsFirst), recipientsFirst)
    ensures multiset(Insert(x, s, recipientsFirst)) == multiset(s) + multiset{x}
  {
    var p := Place(x, s, recipientsFirst);
    var r := Insert(x, s, recipientsFirst);
    InsertShape(x, s, recipientsFirst);
    forall i, j | 0 <= i < j < |r|
      ensures !Before(r[j], r[i], recipientsFirst)
    {
      if j < p {
      } else if j == p {
        assert r[i] == s[i];
      } else if i < p {
        assert r[i] == s[i] && r[j] == s[j - 1];
      } else if i == p {
        AfterPlace(x, s, recipientsFirst, j - 1);
      } else {
        assert r[i] == s[i - 1] && r[j] == s[j - 1];
      }
    }
  }

  /** The sort orders by the comparator and keeps exactly the elements. */
  lemma {:induction false} SortBySorted(s: seq<Candidate>, recipientsFirst: bool)
    ensures Sorted(SortBy(s, recipientsFirst), recipientsFirst)
    ensures multiset(SortBy(s, recipientsFirst)) == multiset(s)
  {
    if s != [] {
      var init, x := s[..|s| - 1], s[|s| - 1];
      assert s == init + [x];
      assert multiset(s) == multiset(init) + multiset{x};
      var t := SortBy(init, recipientsFirst);
      SortBySorted(init, recipientsFirst);
      InsertSorted(x, t, recipientsFirst);
      assert SortBy(s, recipientsFirst) == Insert(x, t, recipientsFirst);
    }
  }

  /** No two candidates share a lowercased address. */
  predicate DistinctKeys(s: seq<Candidate>) {
    forall i, j :: 0 <= i < |s| && 0 <= j < |s| && i != j ==> Key(s[i]) != Key(s[j])
  }

  lemma InsertDistinct(x: Candidate, s: seq<Candidate>, recipientsFirst: bool)
    requires DistinctKeys(s) && forall y :: y in s ==> Key(y) != Key(x)
    ensures DistinctKeys(Insert(x, s, recipientsFirst))
  {
    InsertShape(x, s, recipientsFirst);
  }

  lemma {:induction false} SortByDistinct(s: seq<Candidate>, recipientsFirst: bool)
    requires DistinctKeys(s)
    ensures DistinctKeys(SortBy(s, recipientsFirst))
  {
    if s != [] {
      var init := s[..|s| - 1];
      assert DistinctKeys(init);
      SortByDistinct(init, recipientsFirst);
      SortBySorted(init, recipientsFirst);
      forall y | y in SortBy(init, recipientsFirst)
        ensures Key(y) != Key(s[|s| - 1])
      {
        assert y in multiset(init);
      }
      InsertDistinct(s[|s| - 1], SortBy(init, recipientsFirst), recipientsFirst);
    }
  }

  /** `slice(0, end)`: a negative end counts from the back. */
  function SliceTo<T>(s: seq<T>, end: int): (r: seq<T>)
    ensures r <= s
    ensures end >= 0 ==> |r| == if end <= |s| then end else |s|
    ensures end < 0 ==> |r| == if |s| + end > 0 then |s| + end else 0
  {
    if end >= 0 then (if end <= |s| then s[..end] else s)
    else if |s| + end > 0 then s[..|s| + end] else []
  }

  /** The dropdown list: the gathered candidates sorted, then cut to `limit`. */
  function Results(m: Table, recipientsFirst: bool, limit: int): seq<Candidate> {
    SliceTo(SortBy(Values(m), recipientsFirst), limit)
  }

  lemma ValuesGood(m: Table, query: string, blocklist: seq<string>)
    requires Good(m, query, blocklist)
    ensures DistinctKeys(Values(m))
    ensures forall c :: c in Values(m) ==> Admitted(c, query, blocklist)
  {
  }

  /** A prefix of a sorted list with distinct keys is one too. */
  lemma PrefixKeeps(r: seq<Candidate>, s: seq<Candidate>, recipientsFirst: bool)
    requires r <= s && Sorted(s, recipientsFirst) && DistinctKeys(s)
    ensures Sorted(r, recipientsFirst) && DistinctKeys(r)
  {
    assert forall i :: 0 <= i < |r| ==> r[i] == s[i];
  }

  /**
   * The results are in comparator order, each an admitted gathered candidate,
   * at most one per lowercased address and at most `limit` of them; when the
   * limit is not below the number gathered, every gathered candidate is listed.
   */
  lemma ResultsFacts(m: Table, query: string, blocklist: seq<string>, recipientsFirst: bool, limit: int)
    requires Good(m, query, blocklist)
    ensures var r := Results(m, recipientsFirst, limit);
      Sorted(r, recipientsFirst) && DistinctKeys(r) &&
      (forall c :: c in r ==> c in Values(m) && Admitted(c, query, blocklist)) &&
      (limit >= 0 ==> |r| <= limit) &&
      (limit >= |m| ==> multiset(r) == multiset(Values(m)))
  {
    var v := Values(m);
    var sorted := SortBy(v, recipientsFirst);
    var r := Results(m, recipientsFirst, limit);
    SortBySorted(v, recipientsFirst);
    ValuesGood(m, query, blocklist);
    SortByDistinct(v, recipientsFirst);
    PrefixKeeps(r, sorted, recipientsFirst);
    forall c | c in r
      ensures c in v
    {
      assert c in sorted;
      assert c in multiset(sorted);
    }
    if limit >= |m| {
      assert r == sorted;
    }
  }
}
