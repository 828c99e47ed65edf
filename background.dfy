/**
 * The background script of the current generation (background.js): cached
 * settings kept in step with storage, the message handler and its gates,
 * and the contact search with source toggles, blocklist and result limit.
 */
module Background {
  import opened Wrappers
  import opened Strings
  import opened Recipients
  import opened Contacts
  import opened Config

  /** A message from a compose script or the options page. */
  datatype Message = GetContacts(query: string) | EnsureRecipient(email: string, name: string) | GetSettings | OtherMessage

  /** What the handler answers: a list, nothing, the trigger, or `false` for a message it does not handle. */
  datatype Reply = ContactList(list: seq<Candidate>) | NoValue | TriggerSetting(trigger: string) | NotHandled

  function Flatten(fields: seq<seq<Entry>>): seq<Entry> {
    if fields == [] then [] else Flatten(fields[..|fields| - 1]) + fields[|fields| - 1]
  }

  /** The recipient entries searched: To, Cc and Bcc when enabled and readable. */
  function RecipientSource(s: Settings, details: Option<Details>): seq<Entry> {
    if s.searchRecipients && details.Some? then details.value.to + details.value.cc + details.value.bcc else []
  }

  function CardSource(s: Settings, book: Option<seq<string>>): seq<string> {
    if s.searchAddressBooks && book.Some? then book.value else []
  }

  function CustomSource(s: Settings): seq<CustomContact> {
    if s.searchCustomContacts then s.customContacts else []
  }

  /** The table getContactsForCompose builds (`None` is a host call that failed). */
  function Collected(s: Settings, details: Option<Details>, book: Option<seq<string>>, query: string): Table {
    Gather(RecipientSource(s, details), CardSource(s, book), CustomSource(s), query, s.blocklist)
  }

  /** getContactsForCompose: sorted by `name || email` only, cut to `maxResults`. */
  function ContactsFor(s: Settings, details: Option<Details>, book: Option<seq<string>>, query: string): seq<Candidate> {
    Results(Collected(s, details, book, query), false, s.maxResults)
  }

  /**
   * The list is sorted by name or address, has one entry per lowercased
   * address, at most `maxResults` entries when that is not negative, and
   * holds only candidates that match the query and no blocklist entry;
   * without the recipient source no entry is marked as a recipient, and with
   * every source off the list is empty.
   */
  lemma ContactsForFacts(s: Settings, details: Option<Details>, book: Option<seq<string>>, query: string)
    ensures var r := ContactsFor(s, details, book, query);
      Sorted(r, false) && DistinctKeys(r) &&
      (forall c :: c in r ==> MatchesQuery(c.name, c.email, query) && !Blocked(c.name, c.email, s.blocklist)) &&
      (s.maxResults >= 0 ==> |r| <= s.maxResults) &&
      (!s.searchRecipients ==> forall c :: c in r ==> !c.isRecipient) &&
      (!s.searchRecipients && !s.searchAddressBooks && !s.searchCustomContacts ==> r == [])
  {
    var m := Collected(s, details, book, query);
    GatherGood(RecipientSource(s, details), CardSource(s, book), CustomSource(s), query, s.blocklist);
    ResultsFacts(m, query, s.blocklist, false, s.maxResults);
    if !s.searchRecipients {
      NoRecipientsGathered(CardSource(s, book), CustomSource(s), query, s.blocklist);
      var r := ContactsFor(s, details, book, query);
      forall c | c in r
        ensures !c.isRecipient
      {
        var i :| 0 <= i < |Values(m)| && Values(m)[i] == c;
        assert m[i].1 == c;
      }
    }
  }

  /** The message handler's answer and the compose details it writes, if any. */
  function Respond(s: Settings, msg: Message, hasTab: bool, details: Option<Details>, book: Option<seq<string>>): (Reply, Option<Details>) {
    match msg
    case GetContacts(q) =>
      if !hasTab then (ContactList([]), None) else (ContactList(ContactsFor(s, details, book, q)), None)
    case EnsureRecipient(email, name) =>
      if !hasTab || !s.autoAddRecipient || details.None? then (NoValue, None)
      else (NoValue, EnsureRecipientInTo(Intended, details.value, email, name))
    case GetSettings => (TriggerSetting(s.triggerCharacter), None)
    case OtherMessage => (NotHandled, None)
  }

  /**
   * Compose details are only written for an "ensure recipient" message from
   * a tab, with auto-add on, when the address is not yet in To; and the
   * settings request answers with the trigger.
   */
  lemma RespondGates(s: Settings, msg: Message, hasTab: bool, details: Option<Details>, book: Option<seq<string>>)
    ensures var (reply, update) := Respond(s, msg, hasTab, details, book);
      (update.Some? ==>
        msg.EnsureRecipient? && hasTab && s.autoAddRecipient && details.Some? &&
        !exists i :: 0 <= i < |details.value.to| && SameAddress(Intended, details.value.to[i], Lower(msg.email))) &&
      (msg.GetSettings? ==> reply == TriggerSetting(s.triggerCharacter)) &&
      (msg.GetContacts? && !hasTab ==> reply == ContactList([]))
  {
  }

  /** The background script's state: the cached settings. */
  class BackgroundScript {
    var settings: Settings

    /** `let settings = { ...DEFAULT_SETTINGS }`. */
    constructor ()
      ensures settings == Defaults
    {
      settings := Defaults;
    }

    /** loadSettings: the stored values over the defaults; a failed read keeps the cache. */
    method LoadSettings(stored: Option<seq<Change>>)
      modifies this
      ensures settings == if stored.Some? then ApplyAll(Defaults, stored.value) else old(settings)
    {
      if stored.Some? {
        var result := Defaults;
        var i := 0;
        while i < |stored.value|
          invariant 0 <= i <= |stored.value|
          invariant result == ApplyAll(Defaults, stored.value[..i])
        {
          assert stored.value[..i + 1][..i] == stored.value[..i];
          result := Apply(result, stored.value[i]);
          i := i + 1;
        }
        assert stored.value[..i] == stored.value;
        settings := result;
      }
    }

    /** The storage change listener: keys of the local area that settings have take their new value. */
    method OnStorageChanged(changes: seq<Change>, area: string)
      modifies this
      ensures settings == if area == "local" then ApplyAll(old(settings), changes) else old(settings)
    {
      if area == "local" {
        var i := 0;
        while i < |changes|
          invariant 0 <= i <= |changes|
          invariant settings == ApplyAll(old(settings), changes[..i])
        {
          assert changes[..i + 1][..i] == changes[..i];
          settings := Apply(settings, changes[i]);
          i := i + 1;
        }
        assert changes[..i] == changes;
      }
    }

    /** isBlocked. */
    method IsBlocked(name: string, email: string) returns (blocked: bool)
      ensures blocked == Blocked(name, email, settings.blocklist)
    {
      var lowerName := Lower(name);
      var lowerEmail := Lower(email);
      var i := 0;
      while i < |settings.blocklist|
        invariant 0 <= i <= |settings.blocklist|
        invariant forall k :: 0 <= k < i ==> !BlockedBy(name, email, settings.blocklist[k])
      {
        var lowerEntry := Lower(settings.blocklist[i]);
        if Contains(lowerName, lowerEntry) || Contains(lowerEmail, lowerEntry) {
          return true;
        }
        i := i + 1;
      }
      return false;
    }

    /** One recipient field: each parsed, admitted entry set under its lowercased address. */
    method AddField(contacts0: Table, recipients: seq<Entry>, query: string) returns (contacts: Table)
      ensures contacts == AddRecipients(contacts0, recipients, query, settings.blocklist)
    {
      contacts := contacts0;
      var i := 0;
      while i < |recipients|
        invariant 0 <= i <= |recipients|
        invariant contacts == AddRecipients(contacts0, recipients[..i], query, settings.blocklist)
      {
        assert recipients[..i + 1][..i] == recipients[..i];
        var parsed := ParseRecipient(recipients[i]);
        if parsed.Some? && MatchesQuery(parsed.value.name, parsed.value.email, query) {
          var blocked := IsBlocked(parsed.value.name, parsed.value.email);
          if !blocked {
            contacts := Put(contacts, Lower(parsed.value.email), Candidate(parsed.value.name, parsed.value.email, true));
          }
        }
        i := i + 1;
      }
      assert recipients[..i] == recipients;
    }

    /** The recipient stage of getContactsForCompose: To, then Cc, then Bcc. */
    method AddRecipientFields(details: Details, query: string) returns (contacts: Table)
      ensures contacts == AddRecipients([], details.to + details.cc + details.bcc, query, settings.blocklist)
    {
      contacts := [];
      var fields := [details.to, details.cc, details.bcc];
      var f := 0;
      while f < |fields|
        invariant 0 <= f <= |fields|
        invariant contacts == AddRecipients([], Flatten(fields[..f]), query, settings.blocklist)
      {
        assert fields[..f + 1][..f] == fields[..f];
        AddRecipientsAppend([], Flatten(fields[..f]), fields[f], query, settings.blocklist);
        contacts := AddField(contacts, fields[f], query);
        f := f + 1;
      }
      assert fields[..3] == fields;
      assert Flatten(fields) == details.to + details.cc + details.bcc by {
        assert fields[..2] == [details.to, details.cc];
        assert [details.to, details.cc][..1] == [details.to];
        assert [details.to][..0] == [];
        assert Flatten([details.to]) == details.to;
        assert Flatten([details.to, details.cc]) == details.to + details.cc;
      }
    }

    /** One card's addresses, none replacing a present key. */
    method AddCardEmails(contacts0: Table, name: string, emails: seq<string>, query: string) returns (contacts: Table)
      ensures contacts == AddEmails(contacts0, name, emails, query, settings.blocklist)
    {
      contacts := contacts0;
      var e := 0;
      while e < |emails|
        invariant 0 <= e <= |emails|
        invariant contacts == AddEmails(contacts0, name, emails[..e], query, settings.blocklist)
      {
        assert emails[..e + 1][..e] == emails[..e];
        var email := emails[e];
        var emailLower := Lower(email);
        if !Has(contacts, emailLower) && MatchesQuery(name, email, query) {
          var blocked := IsBlocked(name, email);
          if !blocked {
            contacts := Put(contacts, emailLower, Candidate(name, email, false));
          }
        }
        e := e + 1;
      }
      assert emails[..e] == emails;
    }

    /** The address-book stage: each card's addresses; a card without any is skipped. */
    method AddAddressBook(contacts0: Table, cards: seq<string>, query: string) returns (contacts: Table)
      ensures contacts == AddCards(contacts0, cards, query, settings.blocklist)
    {
      contacts := contacts0;
      var c := 0;
      while c < |cards|
        invariant 0 <= c <= |cards|
        invariant contacts == AddCards(contacts0, cards[..c], query, settings.blocklist)
      {
        assert cards[..c + 1][..c] == cards[..c];
        var name, emails := ParseVCard(cards[c]);
        if |emails| == 0 {
          c := c + 1;
          continue;
        }
        contacts := AddCardEmails(contacts, name, emails, query);
        c := c + 1;
      }
      assert cards[..c] == cards;
    }

    /** The custom-contact stage. */
    method AddCustomContacts(contacts0: Table, query: string) returns (contacts: Table)
      ensures contacts == AddCustom(contacts0, settings.customContacts, query, settings.blocklist)
    {
      contacts := contacts0;
      var custom := settings.customContacts;
      var i := 0;
      while i < |custom|
        invariant 0 <= i <= |custom|
        invariant contacts == AddCustom(contacts0, custom[..i], query, settings.blocklist)
      {
        assert custom[..i + 1][..i] == custom[..i];
        var customContact := custom[i];
        var emailLower := Lower(customContact.email);
        if !Has(contacts, emailLower) && MatchesQuery(customContact.name, customContact.email, query) {
          var blocked := IsBlocked(customContact.name, customContact.email);
          if !blocked {
            contacts := Put(contacts, emailLower, Candidate(customContact.name, customContact.email, false));
          }
        }
        i := i + 1;
      }
      assert custom[..i] == custom;
    }

    /** getContactsForCompose, given what the host calls return (`None` when a call throws). */
    method GetContactsForCompose(details: Option<Details>, book: Option<seq<string>>, query: string) returns (results: seq<Candidate>)
      ensures results == ContactsFor(settings, details, book, query)
    {
      var contacts: Table := [];
      if settings.searchRecipients && details.Some? {
        contacts := AddRecipientFields(details.value, query);
      }
      if settings.searchAddressBooks && book.Some? {
        contacts := AddAddressBook(contacts, book.value, query);
      }
      if settings.searchCustomContacts {
        contacts := AddCustomContacts(contacts, query);
      }
      results := Values(contacts);
      results := SortBy(results, false);
      results := SliceTo(results, settings.maxResults);
    }

    /** The runtime message listener. */
    method HandleMessage(msg: Message, hasTab: bool, details: Option<Details>, book: Option<seq<string>>)
      returns (reply: Reply, update: Option<Details>)
      ensures (reply, update) == Respond(settings, msg, hasTab, details, book)
    {
      update := None;
      match msg {
        case GetContacts(query) =>
          if !hasTab {
            reply := ContactList([]);
            return;
          }
          var list := GetContactsForCompose(details, book, query);
          reply := ContactList(list);
        case EnsureRecipient(email, name) =>
          reply := NoValue;
          if !hasTab || !settings.autoAddRecipient || details.None? {
            return;
          }
          update := EnsureRecipientInTo(Intended, details.value, email, name);
        case GetSettings =>
          reply := TriggerSetting(settings.triggerCharacter);
        case OtherMessage =>
          reply := NotHandled;
      }
    }
  }
}
