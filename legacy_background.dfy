/**
 * The background script of the first generation (background/background.js):
 * no settings, no blocklist and no custom contacts; recipients and
 * address-book cards only, recipients listed first, at most ten results.
 */
module LegacyBackground {
  import opened Wrappers
  import opened Strings
  import opened Recipients
  import opened Contacts

  /** The messages this generation understands; anything else is `OtherMessage`. */
  datatype Message = GetContacts(query: string) | EnsureRecipient(email: string, name: string) | OtherMessage

  /** An array of candidates, or the `undefined` of a listener that returns nothing. */
  datatype Reply = ContactList(list: seq<Candidate>) | NoValue

  /** The fixed result limit. */
  const Limit := 10

  /** The recipient entries: To, Cc and Bcc, or none when the compose details cannot be read. */
  function RecipientSource(details: Option<Details>): seq<Entry> {
    if details.Some? then details.value.to + details.value.cc + details.value.bcc else []
  }

  function CardSource(book: Option<seq<string>>): seq<string> {
    if book.Some? then book.value else []
  }

  /** The table getContactsForCompose builds; an empty blocklist admits every candidate that matches. */
  function Collected(details: Option<Details>, book: Option<seq<string>>, query: string): Table {
    Gather(RecipientSource(details), CardSource(book), [], query, [])
  }

  /** getContactsForCompose: recipients first, then by `name || email`, the first ten. */
  function ContactsFor(details: Option<Details>, book: Option<seq<string>>, query: string): seq<Candidate> {
    Results(Collected(details, book, query), true, Limit)
  }

  /**
   * The list has at most ten entries, one per lowercased address, each
   * matching the query; every recipient comes before every other contact and
   * each group is in name order; without readable compose details nobody is
   * marked as a recipient.
   */
  lemma ContactsForFacts(details: Option<Details>, book: Option<seq<string>>, query: string)
    ensures var r := ContactsFor(details, book, query);
      Sorted(r, true) && DistinctKeys(r) && |r| <= Limit &&
      (forall c :: c in r ==> MatchesQuery(c.name, c.email, query)) &&
      (forall i, j :: 0 <= i < j < |r| && r[j].isRecipient ==> r[i].isRecipient) &&
      (details.None? ==> forall c :: c in r ==> !c.isRecipient)
  {
    var m := Collected(details, book, query);
    var r := ContactsFor(details, book, query);
    GatherGood(RecipientSource(details), CardSource(book), [], query, []);
    ResultsFacts(m, query, [], true, Limit);
    forall i, j | 0 <= i < j < |r| && r[j].isRecipient
      ensures r[i].isRecipient
    {
      assert !Before(r[j], r[i], true);
    }
    if details.None? {
      NoRecipientsGathered(CardSource(book), [], query, []);
      forall c | c in r
        ensures !c.isRecipient
      {
        var i :| 0 <= i < |Values(m)| && Values(m)[i] == c;
        assert m[i].1 == c;
      }
    }
  }

  /** The message listener's answer and the compose details it writes, if any. */
  function Respond(msg: Message, hasTab: bool, details: Option<Details>, book: Option<seq<string>>): (Reply, Option<Details>) {
    match msg
    case GetContacts(q) =>
      if !hasTab then (ContactList([]), None) else (ContactList(ContactsFor(details, book, q)), None)
    case EnsureRecipient(email, name) =>
      if !hasTab || details.None? then (NoValue, None)
      else (NoValue, EnsureRecipientInTo(Intended, details.value, email, name))
    case OtherMessage => (NoValue, None)
  }

  /**
   * Compose details are written only for an "ensure recipient" message from
   * a tab whose To field lacks the address, with that address appended to To;
   * a contacts request without a tab gets the empty list.
   */
  lemma RespondGates(msg: Message, hasTab: bool, details: Option<Details>, book: Option<seq<string>>)
    ensures var (reply, update) := Respond(msg, hasTab, details, book);
      (update.Some? ==>
        msg.EnsureRecipient? && hasTab && details.Some? &&
        (!exists i :: 0 <= i < |details.value.to| && SameAddress(Intended, details.value.to[i], Lower(msg.email))) &&
        update.value.to == details.value.to + [Format(msg.name, msg.email)]) &&
      (msg.GetContacts? && !hasTab ==> reply == ContactList([])) &&
      (!msg.GetContacts? ==> reply == NoValue)
  {
  }

  /** One recipient field: each parsed entry that matches set under its lowercased address. */
  method AddField(contacts0: Table, recipients: seq<Entry>, query: string) returns (contacts: Table)
    ensures contacts == AddRecipients(contacts0, recipients, query, [])
  {
    contacts := contacts0;
    var i := 0;
    while i < |recipients|
      invariant 0 <= i <= |recipients|
      invariant contacts == AddRecipients(contacts0, recipients[..i], query, [])
    {
      assert recipients[..i + 1][..i] == recipients[..i];
      var parsed := ParseRecipient(recipients[i]);
      if parsed.Some? && MatchesQuery(parsed.value.name, parsed.value.email, query) {
        contacts := Put(contacts, Lower(parsed.value.email), Candidate(parsed.value.name, parsed.value.email, true));
      }
      i := i + 1;
    }
    assert recipients[..i] == recipients;
  }

  /** The recipient stage: To, then Cc, then Bcc. */
  method AddRecipientFields(details: Details, query: string) returns (contacts: Table)
    ensures contacts == AddRecipients([], details.to + details.cc + details.bcc, query, [])
  {
    contacts := [];
    var fields := [details.to, details.cc, details.bcc];
    var f := 0;
    ghost var done: seq<Entry> := [];
    while f < |fields|
      invariant 0 <= f <= |fields|
      invariant done == if f == 0 then [] else if f == 1 then details.to else if f == 2 then details.to + details.cc
        else details.to + details.cc + details.bcc
      invariant contacts == AddRecipients([], done, query, [])
    {
      AddRecipientsAppend([], done, fields[f], query, []);
      contacts := AddField(contacts, fields[f], query);
      done := done + fields[f];
      f := f + 1;
    }
  }

  /** One card's addresses, none replacing a present key. */
  method AddCardEmails(contacts0: Table, name: string, emails: seq<string>, query: string) returns (contacts: Table)
    ensures contacts == AddEmails(contacts0, name, emails, query, [])
  {
    contacts := contacts0;
    var e := 0;
    while e < |emails|
      invariant 0 <= e <= |emails|
      invariant contacts == AddEmails(contacts0, name, emails[..e], query, [])
    {
      assert emails[..e + 1][..e] == emails[..e];
      var email := emails[e];
      var emailLower := Lower(email);
      if !Has(contacts, emailLower) && MatchesQuery(name, email, query) {
        contacts := Put(contacts, emailLower, Candidate(name, email, false));
      }
      e := e + 1;
    }
    assert emails[..e] == emails;
  }

  /** The address-book stage: each card's addresses; a card without any is skipped. */
  method AddAddressBook(contacts0: Table, cards: seq<string>, query: string) returns (contacts: Table)
    ensures contacts == AddCards(contacts0, cards, query, [])
  {
    contacts := contacts0;
    var c := 0;
    while c < |cards|
      invariant 0 <= c <= |cards|
      invariant contacts == AddCards(contacts0, cards[..c], query, [])
    {
      assert cards[..c + 1][..c] == cards[..c];
      var name, emails := ParseVCard(cards[c]);
      if |emails| == 0 {
        c := c + 1;
        continue;
      }
      contacts := AddCardEmails(contacts, name, emails, query);
      c := c + 1;
    }
    assert cards[..c] == cards;
  }

  /** getContactsForCompose, given what the host calls return (`None` when a call throws). */
  method GetContactsForCompose(details: Option<Details>, book: Option<seq<string>>, query: string) returns (results: seq<Candidate>)
    ensures results == ContactsFor(details, book, query)
  {
    var contacts: Table := [];
    if details.Some? {
      contacts := AddRecipientFields(details.value, query);
    }
    if book.Some? {
      contacts := AddAddressBook(contacts, book.value, query);
    }
    results := Values(contacts);
    results := SortBy(results, true);
    results := SliceTo(results, Limit);
  }

  /** The runtime message listener. */
  method HandleMessage(msg: Message, hasTab: bool, details: Option<Details>, book: Option<seq<string>>)
    returns (reply: Reply, update: Option<Details>)
    ensures (reply, update) == Respond(msg, hasTab, details, book)
  {
    reply := NoValue;
    update := None;
    match msg {
      case GetContacts(query) =>
        if !hasTab {
          reply := ContactList([]);
          return;
        }
        var list := GetContactsForCompose(details, book, query);
        reply := ContactList(list);
      case EnsureRecipient(email, name) =>
        if !hasTab || details.None? {
          return;
        }
        update := EnsureRecipientInTo(Intended, details.value, email, name);
      case OtherMessage =>
    }
  }
}
