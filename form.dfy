/**
 * What the two options pages share: the page's form state with its list
 * rows in place of DOM elements, rendering and reading back those rows, the
 * add-contact and add-entry validators, index removal (`splice(i, 1)`), and
 * the settings record a save builds from the form.
 */
module Form {
  import opened Wrappers
  import opened Strings
  import opened Contacts
  import opened Config

  /** A row of the custom-contact table: the "No custom contacts added" placeholder, or a contact's row with its data attributes. */
  datatype Row = Placeholder | ContactRow(name: string, email: string)

  /** An item of the blocklist: the "No blocked entries" placeholder, or an entry's item. */
  datatype Item = EmptyItem | EntryItem(entry: string)

  /** The status line and whether it shows an error. */
  datatype Status = Status(text: string, isError: bool)

  /** The form: inputs, checkboxes, the two lists as rendered, and the status line. */
  datatype Page = Page(
    trigger: string,
    maxResults: string,
    autoAddRecipient: bool,
    searchAddressBooks: bool,
    searchRecipients: bool,
    searchCustomContacts: bool,
    rows: seq<Row>,
    items: seq<Item>,
    newName: string,
    newEmail: string,
    newEntry: string,
    status: Status)

  // ------------------------------------------------------------ rendering

  function ContactRows(cs: seq<CustomContact>): seq<Row> {
    if cs == [] then [] else ContactRows(cs[..|cs| - 1]) + [ContactRow(cs[|cs| - 1].name, cs[|cs| - 1].email)]
  }

  /** renderCustomContacts: one row per contact, or the placeholder alone for none. */
  function RenderContacts(cs: seq<CustomContact>): seq<Row> {
    if cs == [] then [Placeholder] else ContactRows(cs)
  }

  function EntryItems(es: seq<string>): seq<Item> {
    if es == [] then [] else EntryItems(es[..|es| - 1]) + [EntryItem(es[|es| - 1])]
  }

  /** renderBlocklist: one item per entry, or the placeholder alone for none. */
  function RenderBlocklist(es: seq<string>): seq<Item> {
    if es == [] then [EmptyItem] else EntryItems(es)
  }

  // ------------------------------------------------------------ reading back

  /** What a row contributes to getCustomContactsFromUI: a contact when both attributes are non-empty. */
  function RowContact(r: Row): seq<CustomContact> {
    match r
    case ContactRow(n, e) => if n != "" && e != "" then [CustomContact(n, e)] else []
    case Placeholder => []
  }

  /** getCustomContactsFromUI: every contact read comes from a row of the list with both fields filled. */
  function ContactsOf(rows: seq<Row>): seq<CustomContact> {
    if rows == [] then [] else ContactsOf(rows[..|rows| - 1]) + RowContact(rows[|rows| - 1])
  }

  /** Every contact read back has both fields filled and comes from a row; there are no more contacts than rows. */
  lemma {:induction false} ContactsOfRows(rows: seq<Row>)
    ensures |ContactsOf(rows)| <= |rows|
    ensures forall c :: c in ContactsOf(rows) ==> c.name != "" && c.email != "" && ContactRow(c.name, c.email) in rows
  {
    if rows != [] {
      var init := rows[..|rows| - 1];
      ContactsOfRows(init);
      forall c | c in ContactsOf(rows)
        ensures c.name != "" && c.email != "" && ContactRow(c.name, c.email) in rows
      {
        if c in ContactsOf(init) {
          var k :| 0 <= k < |init| && init[k] == ContactRow(c.name, c.email);
          assert rows[k] == init[k];
        } else {
          assert rows[|rows| - 1] == ContactRow(c.name, c.email);
        }
      }
    }
  }

  function ItemEntry(it: Item): seq<string> {
    match it
    case EntryItem(e) => if e != "" then [e] else []
    case EmptyItem => []
  }

  /** getBlocklistFromUI: every entry read is non-empty and comes from an item of the list. */
  function EntriesOf(items: seq<Item>): seq<string> {
    if items == [] then [] else EntriesOf(items[..|items| - 1]) + ItemEntry(items[|items| - 1])
  }

  /** Every entry read back is non-empty and comes from an item; there are no more entries than items. */
  lemma {:induction false} EntriesOfItems(items: seq<Item>)
    ensures |EntriesOf(items)| <= |items|
    ensures forall e :: e in EntriesOf(items) ==> e != "" && EntryItem(e) in items
  {
    if items != [] {
      var init := items[..|items| - 1];
      EntriesOfItems(init);
      forall e | e in EntriesOf(items)
        ensures e != "" && EntryItem(e) in items
      {
        if e in EntriesOf(init) {
          var k :| 0 <= k < |init| && init[k] == EntryItem(e);
          assert items[k] == init[k];
        } else {
          assert items[|items| - 1] == EntryItem(e);
        }
      }
    }
  }

  /** The contacts loop of getCustomContactsFromUI. */
  method ReadContacts(rows: seq<Row>) returns (contacts: seq<CustomContact>)
    ensures contacts == ContactsOf(rows)
  {
    contacts := [];
    var i := 0;
    while i < |rows|
      invariant 0 <= i <= |rows|
      invariant contacts == ContactsOf(rows[..i])
    {
      assert rows[..i + 1][..i] == rows[..i];
      if rows[i].ContactRow? && rows[i].name != "" && rows[i].email != "" {
        contacts := contacts + [CustomContact(rows[i].name, rows[i].email)];
      }
      i := i + 1;
    }
    assert rows[..i] == rows;
  }

  /** The entries loop of getBlocklistFromUI. */
  method ReadBlocklist(items: seq<Item>) returns (entries: seq<string>)
    ensures entries == EntriesOf(items)
  {
    entries := [];
    var i := 0;
    while i < |items|
      invariant 0 <= i <= |items|
      invariant entries == EntriesOf(items[..i])
    {
      assert items[..i + 1][..i] == items[..i];
      if items[i].EntryItem? && items[i].entry != "" {
        entries := entries + [items[i].entry];
      }
      i := i + 1;
    }
    assert items[..i] == items;
  }

  /** Contacts with both fields filled and addresses distinct ignoring case: what the add and remove handlers keep. */
  predicate WellFormed(cs: seq<CustomContact>) {
    (forall i :: 0 <= i < |cs| ==> cs[i].name != "" && cs[i].email != "") &&
    (forall i, j :: 0 <= i < j < |cs| ==> Lower(cs[i].email) != Lower(cs[j].email))
  }

  /** Non-empty, pairwise different blocklist entries. */
  predicate EntriesGood(es: seq<string>) {
    (forall i :: 0 <= i < |es| ==> es[i] != "") &&
    (forall i, j :: 0 <= i < j < |es| ==> es[i] != es[j])
  }

  lemma {:induction false} ReadContactRows(cs: seq<CustomContact>)
    requires forall i :: 0 <= i < |cs| ==> cs[i].name != "" && cs[i].email != ""
    ensures ContactsOf(ContactRows(cs)) == cs
  {
    if cs != [] {
      var init := cs[..|cs| - 1];
      var last := cs[|cs| - 1];
      var rows := ContactRows(cs);
      ReadContactRows(init);
      assert rows == ContactRows(init) + [ContactRow(last.name, last.email)];
      assert rows[..|rows| - 1] == ContactRows(init);
      assert RowContact(rows[|rows| - 1]) == [last];
      assert ContactsOf(rows) == init + [last];
      assert cs == init + [last];
    }
  }

  /**
   * Rendering then reading back gives the list again when every contact has
   * both fields; the placeholder row never becomes a contact.
   */
  lemma ReadRenderedContacts(cs: seq<CustomContact>)
    requires forall i :: 0 <= i < |cs| ==> cs[i].name != "" && cs[i].email != ""
    ensures ContactsOf(RenderContacts(cs)) == cs
  {
    if cs != [] {
      ReadContactRows(cs);
    }
  }

  lemma {:induction false} ReadEntryItems(es: seq<string>)
    requires forall i :: 0 <= i < |es| ==> es[i] != ""
    ensures EntriesOf(EntryItems(es)) == es
  {
    if es != [] {
      var init := es[..|es| - 1];
      var last := es[|es| - 1];
      var items := EntryItems(es);
      ReadEntryItems(init);
      assert items == EntryItems(init) + [EntryItem(last)];
      assert items[..|items| - 1] == EntryItems(init);
      assert ItemEntry(items[|items| - 1]) == [last];
      assert EntriesOf(items) == init + [last];
      assert es == init + [last];
    }
  }

  /** The blocklist read back from its rendering is the list, and the placeholder item is never an entry. */
  lemma ReadRenderedBlocklist(es: seq<string>)
    requires forall i :: 0 <= i < |es| ==> es[i] != ""
    ensures EntriesOf(RenderBlocklist(es)) == es
  {
    if es != [] {
      ReadEntryItems(es);
    }
  }

  // ------------------------------------------------------------ validators

  /** The outcome of an add handler's checks: the error shown, or the grown list. */
  datatype Verdict<T> = Reject(message: string) | Accept(list: seq<T>)

  predicate HasEmail(cs: seq<CustomContact>, email: string) {
    exists i | 0 <= i < |cs| :: Lower(cs[i].email) == Lower(email)
  }

  /** addCustomContact's checks on the trimmed inputs, in the handler's order. */
  function ContactVerdict(nameInput: string, emailInput: string, cs: seq<CustomContact>): Verdict<CustomContact> {
    var name := Trim(nameInput);
    var email := Trim(emailInput);
    if name == "" || email == "" then Reject("Please enter both name and email")
    else if !IsValidEmail(email) then Reject("Please enter a valid email address")
    else if HasEmail(cs, email) then Reject("This email is already in the list")
    else Accept(cs + [CustomContact(name, email)])
  }

  /**
   * A contact is added exactly when both trimmed inputs are non-empty, the
   * address has the `local@domain.tld` shape and no listed address equals it
   * ignoring case; the trimmed pair then goes at the end, the list stays
   * well formed, and the new address has no space and a single '@'.
   */
  lemma ContactVerdictFacts(nameInput: string, emailInput: string, cs: seq<CustomContact>)
    requires WellFormed(cs)
    ensures var name := Trim(nameInput); var email := Trim(emailInput);
      var v := ContactVerdict(nameInput, emailInput, cs);
      (v.Accept? <==>
        name != "" && email != "" && IsValidEmail(email) &&
        forall i :: 0 <= i < |cs| ==> Lower(cs[i].email) != Lower(email)) &&
      (v.Accept? ==>
        v.list == cs + [CustomContact(name, email)] && WellFormed(v.list) &&
        !HasSpace(email) && (forall k :: 0 <= k < |email| && email[k] == '@' ==> Word(email[..k])))
  {
    var name := Trim(nameInput);
    var email := Trim(emailInput);
    var v := ContactVerdict(nameInput, emailInput, cs);
    if v.Accept? {
      assert v.list == cs + [CustomContact(name, email)];
      ValidEmailShape(email, name);
      AppendWellFormed(cs, CustomContact(name, email));
    }
  }

  /** A filled contact whose address is new keeps the list well formed. */
  lemma AppendWellFormed(cs: seq<CustomContact>, c: CustomContact)
    requires WellFormed(cs) && c.name != "" && c.email != ""
    requires forall i :: 0 <= i < |cs| ==> Lower(cs[i].email) != Lower(c.email)
    ensures WellFormed(cs + [c])
  {
    var l := cs + [c];
    forall i, j | 0 <= i < j < |l|
      ensures Lower(l[i].email) != Lower(l[j].email)
    {
      if j == |cs| {
        assert l[i] == cs[i];
      } else {
        assert l[i] == cs[i] && l[j] == cs[j];
      }
    }
  }

  /** addBlocklistEntry's checks on the trimmed input. */
  function EntryVerdict(input: string, es: seq<string>): Verdict<string> {
    var entry := Trim(input);
    if entry == "" then Reject("Please enter a name or email to block")
    else if entry in es then Reject("This entry is already in the blocklist")
    else Accept(es + [entry])
  }

  /**
   * An entry is added exactly when the trimmed input is non-empty and not
   * already listed (case matters); it then goes at the end and the entries
   * stay non-empty and pairwise different.
   */
  lemma EntryVerdictFacts(input: string, es: seq<string>)
    requires EntriesGood(es)
    ensures var entry := Trim(input); var v := EntryVerdict(input, es);
      (v.Accept? <==> entry != "" && forall i :: 0 <= i < |es| ==> es[i] != entry) &&
      (v.Accept? ==> v.list == es + [entry] && EntriesGood(v.list))
  {
    var entry := Trim(input);
    var v := EntryVerdict(input, es);
    if entry != "" && entry !in es {
      var l := v.list;
      forall i, j | 0 <= i < j < |l|
        ensures l[i] != l[j]
      {
        assert l[i] == es[i];
      }
    }
  }

  // ------------------------------------------------------------ removal

  /** `splice(index, 1)`: the element at `index` removed; an index past the end removes nothing. */
  function Splice<T>(s: seq<T>, index: nat): seq<T> {
    if index < |s| then s[..index] + s[index + 1..] else s
  }

  /**
   * Removal takes out exactly the element at the index: the ones before it
   * stay where they were, the ones after move down by one, and the multiset
   * loses that one element; past the end nothing changes.
   */
  lemma SpliceRemoves<T>(s: seq<T>, index: nat)
    ensures var r := Splice(s, index);
      (index < |s| ==>
        |r| == |s| - 1 &&
        (forall k :: 0 <= k < index ==> r[k] == s[k]) &&
        (forall k :: index <= k < |r| ==> r[k] == s[k + 1]) &&
        multiset(r) + multiset{s[index]} == multiset(s)) &&
      (index >= |s| ==> r == s)
  {
    if index < |s| {
      assert s == s[..index] + [s[index]] + s[index + 1..];
    }
  }

  /** Adding an element and then removing the last index gives the list back. */
  lemma SpliceLast<T>(s: seq<T>, x: T)
    ensures Splice(s + [x], |s|) == s
  {
    assert (s + [x])[..|s|] == s;
  }

  lemma SpliceKeepsWellFormed(cs: seq<CustomContact>, index: nat)
    requires WellFormed(cs)
    ensures WellFormed(Splice(cs, index))
  {
    SpliceRemoves(cs, index);
    var r := Splice(cs, index);
    if index < |cs| {
      forall i, j | 0 <= i < j < |r|
        ensures Lower(r[i].email) != Lower(r[j].email)
      {
        var i' := if i < index then i else i + 1;
        var j' := if j < index then j else j + 1;
        assert r[i] == cs[i'] && r[j] == cs[j'];
      }
    }
  }

  lemma SpliceKeepsEntries(es: seq<string>, index: nat)
    requires EntriesGood(es)
    ensures EntriesGood(Splice(es, index))
  {
    SpliceRemoves(es, index);
    var r := Splice(es, index);
    if index < |es| {
      forall i, j | 0 <= i < j < |r|
        ensures r[i] != r[j]
      {
        var i' := if i < index then i else i + 1;
        var j' := if j < index then j else j + 1;
        assert r[i] == es[i'] && r[j] == es[j'];
      }
    }
  }

  // ------------------------------------------------------------ load and save

  /** loadSettings on success: the stored values shown in the form. */
  function Shown(p: Page, s: Settings): Page {
    p.(trigger := s.triggerCharacter, maxResults := IntToDecimal(s.maxResults),
       autoAddRecipient := s.autoAddRecipient, searchAddressBooks := s.searchAddressBooks,
       searchRecipients := s.searchRecipients, searchCustomContacts := s.searchCustomContacts,
       rows := RenderContacts(s.customContacts), items := RenderBlocklist(s.blocklist))
  }

  /** The settings record saveSettings writes: an empty trigger becomes "@", a limit that is not a non-zero number becomes 10. */
  function Saved(p: Page): (s: Settings)
    ensures s.triggerCharacter != "" && s.maxResults != 0
    ensures p.trigger != "" ==> s.triggerCharacter == p.trigger
    ensures p.trigger == "" ==> s.triggerCharacter == "@"
    ensures ParseInt(p.maxResults) == None || ParseInt(p.maxResults) == Some(0) ==> s.maxResults == 10
  {
    Settings(ContactsOf(p.rows), EntriesOf(p.items), MaxResultsOf(p.maxResults),
      p.autoAddRecipient, p.searchAddressBooks, p.searchRecipients, p.searchCustomContacts,
      TriggerOf(p.trigger))
  }

  /**
   * Saving right after loading writes back what was stored, except that a
   * zero limit becomes 10 and an empty trigger "@" (and a contact or entry
   * with an empty field would be dropped).
   */
  lemma SaveAfterLoad(p: Page, s: Settings)
    requires forall i :: 0 <= i < |s.customContacts| ==> s.customContacts[i].name != "" && s.customContacts[i].email != ""
    requires forall i :: 0 <= i < |s.blocklist| ==> s.blocklist[i] != ""
    ensures Saved(Shown(p, s)) == s.(maxResults := if s.maxResults != 0 then s.maxResults else 10,
                                     triggerCharacter := if s.triggerCharacter != "" then s.triggerCharacter else "@")
  {
    ReadRenderedContacts(s.customContacts);
    ReadRenderedBlocklist(s.blocklist);
    MaxResultsRoundTrip(s.maxResults);
  }
}
