/**
 * The options pages of both generations: the form loaded from and saved to
 * local storage, and the list edits. With `autoSave` (src/options.js) each
 * list edit saves the changed list at once and reports it; without it
 * (options.js) edits change only the form until the next save. Each handler
 * returns the storage write it issues; `ok` says whether that write succeeds.
 */
module Options {
  import opened Wrappers
  import opened Strings
  import opened Contacts
  import opened Config
  import opened Form

  /** loadSettings: the stored values shown, or an error status when the read fails. */
  function Load(p: Page, result: Option<Settings>): Page {
    if result.Some? then Shown(p, result.value) else p.(status := Status("Error loading settings", true))
  }

  /** saveSettings: the form is written as `Saved(p)`; only the status changes. */
  function Save(p: Page, ok: bool): Page {
    p.(status := if ok then Status("Settings saved!", false) else Status("Error saving settings", true))
  }

  /** The status after a list edit: unchanged without auto-save, else the outcome of the write. */
  function Saving(p: Page, autoSave: bool, ok: bool, done: string, failed: string): Status {
    if !autoSave then p.status else if ok then Status(done, false) else Status(failed, true)
  }

  /** addCustomContact: a rejected contact only sets the error; an added one is rendered, the inputs cleared, and with auto-save the list written. */
  function AddContact(p: Page, autoSave: bool, ok: bool): (Page, Option<Change>) {
    match ContactVerdict(p.newName, p.newEmail, ContactsOf(p.rows))
    case Reject(message) => (p.(status := Status(message, true)), None)
    case Accept(cs) =>
      (p.(rows := RenderContacts(cs), newName := "", newEmail := "",
          status := Saving(p, autoSave, ok, "Contact added", "Error saving contact")),
       if autoSave then Some(SetCustomContacts(cs)) else None)
  }

  /** removeCustomContact. */
  function RemoveContact(p: Page, autoSave: bool, index: nat, ok: bool): (Page, Option<Change>) {
    var cs := Splice(ContactsOf(p.rows), index);
    (p.(rows := RenderContacts(cs), status := Saving(p, autoSave, ok, "Contact removed", "Error removing contact")),
     if autoSave then Some(SetCustomContacts(cs)) else None)
  }

  /** addBlocklistEntry. */
  function AddEntry(p: Page, autoSave: bool, ok: bool): (Page, Option<Change>) {
    match EntryVerdict(p.newEntry, EntriesOf(p.items))
    case Reject(message) => (p.(status := Status(message, true)), None)
    case Accept(es) =>
      (p.(items := RenderBlocklist(es), newEntry := "",
          status := Saving(p, autoSave, ok, "Entry added to blocklist", "Error saving blocklist")),
       if autoSave then Some(SetBlocklist(es)) else None)
  }

  /** removeBlocklistEntry. */
  function RemoveEntry(p: Page, autoSave: bool, index: nat, ok: bool): (Page, Option<Change>) {
    var es := Splice(EntriesOf(p.items), index);
    (p.(items := RenderBlocklist(es), status := Saving(p, autoSave, ok, "Entry removed from blocklist", "Error removing entry")),
     if autoSave then Some(SetBlocklist(es)) else None)
  }

  /** The lists the page shows are the lists in storage. */
  predicate Synced(p: Page, stored: Settings) {
    ContactsOf(p.rows) == stored.customContacts && EntriesOf(p.items) == stored.blocklist
  }

  /** The lists the page shows are well formed. */
  predicate PageGood(p: Page) {
    WellFormed(ContactsOf(p.rows)) && EntriesGood(EntriesOf(p.items))
  }

  /** Storage after a write that succeeded. */
  function Stored(stored: Settings, write: Option<Change>): Settings {
    if write.Some? then Apply(stored, write.value) else stored
  }

  /** Loading well-formed stored lists shows exactly them; a failed read only reports the error. */
  lemma LoadFacts(p: Page, s: Settings)
    requires WellFormed(s.customContacts) && EntriesGood(s.blocklist)
    ensures Synced(Load(p, Some(s)), s) && PageGood(Load(p, Some(s)))
    ensures Load(p, None) == p.(status := Status("Error loading settings", true))
  {
    ReadRenderedContacts(s.customContacts);
    ReadRenderedBlocklist(s.blocklist);
  }

  /** A save writes the form's lists and leaves the form as it was but for the status. */
  lemma SaveFacts(p: Page, ok: bool)
    ensures Synced(Save(p, ok), Saved(p))
    ensures Save(p, ok).(status := p.status) == p
    ensures Save(p, ok).status.isError == !ok
  {
  }

  /**
   * Adding a contact keeps the list well formed; a rejected one changes no
   * list and writes nothing; an accepted one goes at the end of the list
   * shown and clears the inputs. With auto-save the new list is written and,
   * when that write succeeds, storage and page still agree; without it
   * nothing is written and the status stays.
   */
  lemma AddContactFacts(p: Page, autoSave: bool, ok: bool, stored: Settings)
    requires PageGood(p)
    ensures var (q, write) := AddContact(p, autoSave, ok);
      var v := ContactVerdict(p.newName, p.newEmail, ContactsOf(p.rows));
      PageGood(q) && q.items == p.items &&
      (v.Reject? ==> q == p.(status := Status(v.message, true)) && write == None) &&
      (v.Accept? ==>
        ContactsOf(q.rows) == ContactsOf(p.rows) + [CustomContact(Trim(p.newName), Trim(p.newEmail))] &&
        q.newName == "" && q.newEmail == "" &&
        (autoSave ==> write == Some(SetCustomContacts(ContactsOf(q.rows))) && q.status.isError == !ok) &&
        (!autoSave ==> write == None && q.status == p.status)) &&
      (autoSave && ok && Synced(p, stored) ==> Synced(q, Stored(stored, write)))
  {
    if ContactVerdict(p.newName, p.newEmail, ContactsOf(p.rows)).Accept? {
      AddContactAccepted(p, autoSave, ok, stored);
    }
  }

  /** The accepted case of AddContactFacts. */
  lemma AddContactAccepted(p: Page, autoSave: bool, ok: bool, stored: Settings)
    requires PageGood(p) && ContactVerdict(p.newName, p.newEmail, ContactsOf(p.rows)).Accept?
    ensures var (q, write) := AddContact(p, autoSave, ok);
      PageGood(q) && q.items == p.items &&
      ContactsOf(q.rows) == ContactsOf(p.rows) + [CustomContact(Trim(p.newName), Trim(p.newEmail))] &&
      q.newName == "" && q.newEmail == "" &&
      (autoSave ==> write == Some(SetCustomContacts(ContactsOf(q.rows))) && q.status.isError == !ok) &&
      (!autoSave ==> write == None && q.status == p.status) &&
      (autoSave && ok && Synced(p, stored) ==> Synced(q, Stored(stored, write)))
  {
    var cs := ContactsOf(p.rows);
    var v := ContactVerdict(p.newName, p.newEmail, cs);
    ContactVerdictFacts(p.newName, p.newEmail, cs);
    ReadRenderedContacts(v.list);
    var (q, write) := AddContact(p, autoSave, ok);
    assert q.rows == RenderContacts(v.list);
  }

  /**
   * Removing a contact takes out exactly the one at the index and keeps the
   * list well formed; with auto-save the rest is written, without it nothing.
   */
  lemma RemoveContactFacts(p: Page, autoSave: bool, index: nat, ok: bool, stored: Settings)
    requires PageGood(p)
    ensures var (q, write) := RemoveContact(p, autoSave, index, ok);
      PageGood(q) && q.items == p.items &&
      ContactsOf(q.rows) == Splice(ContactsOf(p.rows), index) &&
      (autoSave ==> write == Some(SetCustomContacts(ContactsOf(q.rows)))) &&
      (!autoSave ==> write == None && q.status == p.status) &&
      (autoSave && ok && Synced(p, stored) ==> Synced(q, Stored(stored, write)))
  {
    var cs := Splice(ContactsOf(p.rows), index);
    SpliceKeepsWellFormed(ContactsOf(p.rows), index);
    ReadRenderedContacts(cs);
  }

  /** The blocklist counterpart of AddContactFacts. */
  lemma AddEntryFacts(p: Page, autoSave: bool, ok: bool, stored: Settings)
    requires PageGood(p)
    ensures var (q, write) := AddEntry(p, autoSave, ok);
      var v := EntryVerdict(p.newEntry, EntriesOf(p.items));
      PageGood(q) && q.rows == p.rows &&
      (v.Reject? ==> q == p.(status := Status(v.message, true)) && write == None) &&
      (v.Accept? ==>
        EntriesOf(q.items) == EntriesOf(p.items) + [Trim(p.newEntry)] && q.newEntry == "" &&
        (autoSave ==> write == Some(SetBlocklist(EntriesOf(q.items))) && q.status.isError == !ok) &&
        (!autoSave ==> write == None && q.status == p.status)) &&
      (autoSave && ok && Synced(p, stored) ==> Synced(q, Stored(stored, write)))
  {
    if EntryVerdict(p.newEntry, EntriesOf(p.items)).Accept? {
      AddEntryAccepted(p, autoSave, ok, stored);
    }
  }

  /** The accepted case of AddEntryFacts. */
  lemma AddEntryAccepted(p: Page, autoSave: bool, ok: bool, stored: Settings)
    requires PageGood(p) && EntryVerdict(p.newEntry, EntriesOf(p.items)).Accept?
    ensures var (q, write) := AddEntry(p, autoSave, ok);
      PageGood(q) && q.rows == p.rows &&
      EntriesOf(q.items) == EntriesOf(p.items) + [Trim(p.newEntry)] && q.newEntry == "" &&
      (autoSave ==> write == Some(SetBlocklist(EntriesOf(q.items))) && q.status.isError == !ok) &&
      (!autoSave ==> write == None && q.status == p.status) &&
      (autoSave && ok && Synced(p, stored) ==> Synced(q, Stored(stored, write)))
  {
    var es := EntriesOf(p.items);
    var v := EntryVerdict(p.newEntry, es);
    EntryVerdictFacts(p.newEntry, es);
    ReadRenderedBlocklist(v.list);
    var (q, write) := AddEntry(p, autoSave, ok);
    assert q.items == RenderBlocklist(v.list);
  }

  /** The blocklist counterpart of RemoveContactFacts. */
  lemma RemoveEntryFacts(p: Page, autoSave: bool, index: nat, ok: bool, stored: Settings)
    requires PageGood(p)
    ensures var (q, write) := RemoveEntry(p, autoSave, index, ok);
      PageGood(q) && q.rows == p.rows &&
      EntriesOf(q.items) == Splice(EntriesOf(p.items), index) &&
      (autoSave ==> write == Some(SetBlocklist(EntriesOf(q.items)))) &&
      (!autoSave ==> write == None && q.status == p.status) &&
      (autoSave && ok && Synced(p, stored) ==> Synced(q, Stored(stored, write)))
  {
    var es := Splice(EntriesOf(p.items), index);
    SpliceKeepsEntries(EntriesOf(p.items), index);
    ReadRenderedBlocklist(es);
  }

  /** The page's form elements. */
  class OptionsPage {
    /** Whether list edits save at once (src/options.js) or wait for the save button (options.js). */
    const autoSave: bool
    var trigger: string
    var maxResults: string
    var autoAddRecipient: bool
    var searchAddressBooks: bool
    var searchRecipients: bool
    var searchCustomContacts: bool
    var rows: seq<Row>
    var items: seq<Item>
    var newName: string
    var newEmail: string
    var newEntry: string
    var status: Status

    function State(): Page
      reads this
    {
      Page(trigger, maxResults, autoAddRecipient, searchAddressBooks, searchRecipients, searchCustomContacts,
           rows, items, newName, newEmail, newEntry, status)
    }

    /** The form as the page's markup has it before loadSettings. */
    constructor (p: Page, autoSave: bool)
      ensures State() == p && this.autoSave == autoSave
    {
      this.autoSave := autoSave;
      trigger, maxResults := p.trigger, p.maxResults;
      autoAddRecipient, searchAddressBooks := p.autoAddRecipient, p.searchAddressBooks;
      searchRecipients, searchCustomContacts := p.searchRecipients, p.searchCustomContacts;
      rows, items := p.rows, p.items;
      newName, newEmail, newEntry := p.newName, p.newEmail, p.newEntry;
      status := p.status;
    }

    /** showStatus (the timer that clears a success message is not modelled). */
    method ShowStatus(message: string, isError: bool)
      modifies this
      ensures State() == old(State()).(status := Status(message, isError))
    {
      status := Status(message, isError);
    }

    method LoadSettings(result: Option<Settings>)
      modifies this
      ensures State() == Load(old(State()), result)
    {
      if result.None? {
        ShowStatus("Error loading settings", true);
        return;
      }
      ShowSettings(result.value);
    }

    /** The body of loadSettings once the stored record is read: each control shows its setting. */
    method ShowSettings(s: Settings)
      modifies this
      ensures State() == Shown(old(State()), s)
    {
      ghost var p := State();
      trigger, maxResults := s.triggerCharacter, IntToDecimal(s.maxResults);
      autoAddRecipient, searchAddressBooks := s.autoAddRecipient, s.searchAddressBooks;
      searchRecipients, searchCustomContacts := s.searchRecipients, s.searchCustomContacts;
      rows, items := RenderContacts(s.customContacts), RenderBlocklist(s.blocklist);
      assert State() == Page(s.triggerCharacter, IntToDecimal(s.maxResults), s.autoAddRecipient, s.searchAddressBooks,
        s.searchRecipients, s.searchCustomContacts, RenderContacts(s.customContacts), RenderBlocklist(s.blocklist),
        p.newName, p.newEmail, p.newEntry, p.status);
    }

    /** saveSettings: returns the record written to storage. */
    method SaveSettings(ok: bool) returns (written: Settings)
      modifies this
      ensures State() == Save(old(State()), ok)
      ensures written == Saved(old(State()))
    {
      var contacts := ReadContacts(rows);
      var blocklist := ReadBlocklist(items);
      written := Settings(contacts, blocklist, MaxResultsOf(maxResults), autoAddRecipient, searchAddressBooks,
                          searchRecipients, searchCustomContacts, TriggerOf(trigger));
      if ok {
        ShowStatus("Settings saved!", false);
      } else {
        ShowStatus("Error saving settings", true);
      }
    }

    /** The status of a list edit's write, when the page saves edits at once. */
    method ReportSave(ok: bool, done: string, failed: string)
      modifies this
      ensures status == Saving(old(State()), autoSave, ok, done, failed)
      ensures State() == old(State()).(status := status)
    {
      if autoSave {
        if ok {
          ShowStatus(done, false);
        } else {
          ShowStatus(failed, true);
        }
      }
    }

    method AddCustomContact(ok: bool) returns (write: Option<Change>)
      modifies this
      ensures (State(), write) == AddContact(old(State()), autoSave, ok)
    {
      ghost var p := State();
      write := None;
      var name := Trim(newName);
      var email := Trim(newEmail);
      if name == "" || email == "" {
        ShowStatus("Please enter both name and email", true);
        return;
      }
      if !IsValidEmail(email) {
        ShowStatus("Please enter a valid email address", true);
        return;
      }
      var contacts := ReadContacts(rows);
      if HasEmail(contacts, email) {
        ShowStatus("This email is already in the list", true);
        return;
      }
      contacts := contacts + [CustomContact(name, email)];
      assert ContactVerdict(p.newName, p.newEmail, ContactsOf(p.rows)) == Accept(contacts);
      write := ShowAddedContacts(contacts, ok);
    }

    /** The tail of addCustomContact once the contact is accepted: render, report the save, clear the inputs. */
    method ShowAddedContacts(contacts: seq<CustomContact>, ok: bool) returns (write: Option<Change>)
      modifies this
      ensures State() == old(State()).(rows := RenderContacts(contacts), newName := "", newEmail := "",
                                       status := Saving(old(State()), autoSave, ok, "Contact added", "Error saving contact"))
      ensures write == if autoSave then Some(SetCustomContacts(contacts)) else None
    {
      rows := RenderContacts(contacts);
      write := if autoSave then Some(SetCustomContacts(contacts)) else None;
      ReportSave(ok, "Contact added", "Error saving contact");
      newName := "";
      newEmail := "";
    }

    method RemoveCustomContact(index: nat, ok: bool) returns (write: Option<Change>)
      modifies this
      ensures (State(), write) == RemoveContact(old(State()), autoSave, index, ok)
    {
      var contacts := ReadContacts(rows);
      contacts := Splice(contacts, index);
      rows := RenderContacts(contacts);
      write := if autoSave then Some(SetCustomContacts(contacts)) else None;
      ReportSave(ok, "Contact removed", "Error removing contact");
    }

    method AddBlocklistEntry(ok: bool) returns (write: Option<Change>)
      modifies this
      ensures (State(), write) == AddEntry(old(State()), autoSave, ok)
    {
      ghost var p := State();
      write := None;
      var entry := Trim(newEntry);
      if entry == "" {
        ShowStatus("Please enter a name or email to block", true);
        return;
      }
      var blocklist := ReadBlocklist(items);
      if entry in blocklist {
        ShowStatus("This entry is already in the blocklist", true);
        return;
      }
      blocklist := blocklist + [entry];
      assert EntryVerdict(p.newEntry, EntriesOf(p.items)) == Accept(blocklist);
      write := ShowAddedEntries(blocklist, ok);
    }

    /** The tail of addBlocklistEntry once the entry is accepted: render, report the save, clear the input. */
    method ShowAddedEntries(blocklist: seq<string>, ok: bool) returns (write: Option<Change>)
      modifies this
      ensures State() == old(State()).(items := RenderBlocklist(blocklist), newEntry := "",
                                       status := Saving(old(State()), autoSave, ok, "Entry added to blocklist", "Error saving blocklist"))
      ensures write == if autoSave then Some(SetBlocklist(blocklist)) else None
    {
      items := RenderBlocklist(blocklist);
      write := if autoSave then Some(SetBlocklist(blocklist)) else None;
      ReportSave(ok, "Entry added to blocklist", "Error saving blocklist");
      newEntry := "";
    }

    method RemoveBlocklistEntry(index: nat, ok: bool) returns (write: Option<Change>)
      modifies this
      ensures (State(), write) == RemoveEntry(old(State()), autoSave, index, ok)
    {
      var blocklist := ReadBlocklist(items);
      blocklist := Splice(blocklist, index);
      items := RenderBlocklist(blocklist);
      write := if autoSave then Some(SetBlocklist(blocklist)) else None;
      ReportSave(ok, "Entry removed from blocklist", "Error removing entry");
    }
  }
}
