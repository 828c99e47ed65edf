/**
 * The recipient helpers both background scripts share: parsing a To/Cc/Bcc
 * entry into a name and an address, reading a vCard, matching a contact
 * against the query, and moving an address into To.
 */
module Recipients {
  import opened Wrappers
  import opened Strings

  /** A recipient as the host lists it: an object (absent fields are "") or a string ("" is falsy). */
  datatype Entry = Obj(name: string, email: string) | Str(text: string)

  datatype Parsed = Parsed(name: string, email: string)

  /** The compose window's recipient fields. */
  datatype Details = Details(to: seq<Entry>, cc: seq<Entry>, bcc: seq<Entry>)

  predicate HasAt(s: string) {
    exists k | 0 <= k < |s| :: s[k] == '@'
  }

  /** An '@' with at least one character on each side. */
  predicate InnerAt(t: string) {
    exists k | 0 < k < |t| - 1 :: t[k] == '@'
  }

  predicate Lacks(s: string, c: char) {
    forall k :: 0 <= k < |s| ==> s[k] != c
  }

  /*
   * The pattern ^(?:"?([^"<]*)"?\s*)?<?([^>]+@[^>]+)>?$, searched in the
   * order a backtracking matcher tries it: the optional group before
   * skipping it, an optional character before leaving it out, and every
   * greedy run from its longest length down. `needsGap` adds the
   * condition that the group is only taken when a blank or the address's
   * '<' separates it from the address.
   */

  /** The end of the run of characters other than '>' that starts at `p`. */
  function AddrEnd(s: string, p: nat): (r: nat)
    requires p <= |s|
    ensures p <= r <= |s|
    ensures r < |s| ==> s[r] == '>'
    ensures forall k :: p <= k < r ==> s[k] != '>'
    decreases |s| - p
  {
    if p == |s| || s[p] == '>' then p else AddrEnd(s, p + 1)
  }

  /** The end of the run of characters other than '"' and '<' that starts at `p`. */
  function NameEnd(s: string, p: nat): (r: nat)
    requires p <= |s|
    ensures p <= r <= |s|
    ensures r < |s| ==> s[r] == '"' || s[r] == '<'
    ensures forall k :: p <= k < r ==> s[k] != '"' && s[k] != '<'
    decreases |s| - p
  {
    if p == |s| || s[p] == '"' || s[p] == '<' then p else NameEnd(s, p + 1)
  }

  /**
   * `([^>]+@[^>]+)>?$` from `p`. The group can only end where its run of
   * non-'>' characters ends: any earlier end leaves a character that neither
   * `>?` nor `$` accepts.
   */
  function TryAddr(s: string, p: nat): (r: Option<string>)
    requires p <= |s|
    ensures r.Some? ==> InnerAt(r.value) && Lacks(r.value, '>') && HasAt(s)
  {
    var e := AddrEnd(s, p);
    if (e == |s| || e == |s| - 1) && InnerAt(s[p..e]) then
      assert forall k :: 0 <= k < e - p ==> s[p..e][k] == s[p + k];
      Some(s[p..e])
    else None
  }

  /** `<?` and the address, from `g`. */
  function TryAngle(s: string, g: nat): (r: Option<string>)
    requires g <= |s|
    ensures r.Some? ==> InnerAt(r.value) && Lacks(r.value, '>') && HasAt(s)
  {
    if g < |s| && s[g] == '<' && TryAddr(s, g + 1).Some? then TryAddr(s, g + 1) else TryAddr(s, g)
  }

  /** `\s*` from `g`, ending at `w`, then at each shorter end down to `g`. */
  function TryBlank(s: string, g: nat, w: nat, needsGap: bool): (r: Option<string>)
    requires g <= w <= |s|
    ensures r.Some? ==> InnerAt(r.value) && Lacks(r.value, '>') && HasAt(s)
    decreases w
  {
    var r := if needsGap && w == g && !(w < |s| && s[w] == '<') then None else TryAngle(s, w);
    if r.Some? || w == g then r else TryBlank(s, g, w - 1, needsGap)
  }

  /** The group's closing `"?` at `n`, then its spaces. */
  function TryClose(s: string, n: nat, needsGap: bool): (r: Option<string>)
    requires n <= |s|
    ensures r.Some? ==> InnerAt(r.value) && Lacks(r.value, '>') && HasAt(s)
  {
    var r := if n < |s| && s[n] == '"' then TryBlank(s, n + 1, NonSpaceFrom(s, n + 1), needsGap) else None;
    if r.Some? then r else TryBlank(s, n, NonSpaceFrom(s, n), needsGap)
  }

  /** `([^"<]*)` from `q`, ending at `n`, then at each shorter end down to `q`: the captured name and address. */
  function TryName(s: string, q: nat, n: nat, needsGap: bool): (r: Option<(string, string)>)
    requires q <= n <= |s|
    ensures r.Some? ==> InnerAt(r.value.1) && Lacks(r.value.1, '>') && HasAt(s)
    decreases n
  {
    var r := TryClose(s, n, needsGap);
    if r.Some? then Some((s[q..n], r.value))
    else if n == q then None
    else TryName(s, q, n - 1, needsGap)
  }

  /** The optional group, with its opening `"?`. */
  function TryGroup(s: string, needsGap: bool): (r: Option<(string, string)>)
    ensures r.Some? ==> InnerAt(r.value.1) && Lacks(r.value.1, '>') && HasAt(s)
  {
    var r := if |s| > 0 && s[0] == '"' then TryName(s, 1, NameEnd(s, 1), needsGap) else None;
    if r.Some? then r else TryName(s, 0, NameEnd(s, 0), needsGap)
  }

  /** The whole match: the group if it can be taken, else the address alone (an absent name is ""). */
  function Match(s: string, needsGap: bool): (r: Option<(string, string)>)
    ensures r.Some? ==> InnerAt(r.value.1) && Lacks(r.value.1, '>') && HasAt(s)
  {
    var g := TryGroup(s, needsGap);
    if g.Some? then g
    else match TryAngle(s, 0)
      case Some(e) => Some(("", e))
      case None => None
  }

  /** A string entry: trimmed captures, or none when the pattern fails. */
  function ParseText(s: string, needsGap: bool): (r: Option<Parsed>)
    ensures r.Some? ==> HasAt(s) && s != ""
  {
    if s == "" then None
    else match Match(s, needsGap)
      case Some((name, email)) => Some(Parsed(Trim(name), Trim(email)))
      case None => None
  }

  /** parseRecipient exactly as written. */
  function ParseRecipientAsWritten(e: Entry): (r: Option<Parsed>)
    ensures e.Str? && r.Some? ==> HasAt(e.text)
  {
    match e
    case Obj(name, email) => Some(Parsed(name, email))
    case Str(s) => ParseText(s, false)
  }

  /**
   * parseRecipient as evidently intended: the name group is only taken when
   * a blank or a '<' separates it from the address, so no address is split
   * inside a word. The rest of the model uses this one.
   */
  function ParseRecipient(e: Entry): (r: Option<Parsed>)
    ensures e.Obj? ==> r == Some(Parsed(e.name, e.email))
    ensures e.Str? && r.Some? ==> HasAt(e.text)
  {
    match e
    case Obj(name, email) => Some(Parsed(name, email))
    case Str(s) => ParseText(s, true)
  }

  /** As written, the name group swallows all but one character before the '@' of a bare address. */
  lemma AsWrittenSplitsBareAddress()
    ensures ParseRecipientAsWritten(Str("ab@c")) == Some(Parsed("a", "b@c"))
  {
    var s := "ab@c";
    AsWrittenTail();
    assert !InnerAt(s[4..4]);
    assert TryName(s, 0, 4, false).None? ==> TryName(s, 0, 4, false) == TryName(s, 0, 3, false);
    assert !InnerAt(s[3..4]);
    assert !InnerAt(s[2..4]) by {
      assert s[2..4] == "@c";
    }
    assert TryName(s, 0, 2, false) == Some(("a", "b@c"));
    assert TryName(s, 0, 3, false) == Some(("a", "b@c"));
    assert NameEnd(s, 0) == 4;
    assert Match(s, false) == Some(("a", "b@c"));
    TrimNoSpace("a");
    TrimNoSpace("b@c");
  }

  /** In "ab@c" a name group ending after "a" leaves "b@c" for the address. */
  lemma AsWrittenTail()
    ensures TryName("ab@c", 0, 1, false) == Some(("a", "b@c"))
  {
    var s := "ab@c";
    var t := s[1..4];
    assert t == "b@c" && t[1] == '@';
    assert InnerAt(t);
    assert TryAddr(s, 1) == Some("b@c");
    assert NonSpaceFrom(s, 1) == 1;
    assert TryClose(s, 1, false) == Some("b@c");
    assert s[0..1] == "a";
  }

  /** As written, a name before an unbracketed address takes the address's first letters too. */
  lemma AsWrittenSplitsNamed()
    ensures ParseRecipientAsWritten(Str("J jo@x")) == Some(Parsed("J j", "o@x"))
  {
    var s := "J jo@x";
    AsWrittenNamedGroup();
    assert NameEnd(s, 0) == 6;
    assert TryGroup(s, false) == Some(("J j", "o@x"));
    NamedSampleTrimmed();
  }

  /** Longer name groups leave "x", "@x" or nothing for the address, which fails. */
  lemma AsWrittenNamedGroup()
    ensures TryName("J jo@x", 0, 6, false) == Some(("J j", "o@x"))
  {
    var s := "J jo@x";
    AsWrittenNamedTail();
    assert !InnerAt(s[6..6]);
    assert TryClose(s, 6, false).None?;
    assert !InnerAt(s[5..6]);
    assert TryClose(s, 5, false).None?;
    assert !InnerAt(s[4..6]) by {
      assert s[4..6] == "@x";
    }
    assert TryClose(s, 4, false).None?;
  }

  lemma NamedSampleTrimmed()
    ensures Trim("J j") == "J j" && Trim("o@x") == "o@x"
  {
    var name := "J j";
    assert NonSpaceFrom(name, 0) == 0 && name[0..] == name;
    assert !IsSpace(name[2]);
    var addr := "o@x";
    assert !IsSpace(addr[0]) && !IsSpace(addr[1]) && !IsSpace(addr[2]);
    TrimNoSpace(addr);
  }

  /** In "J jo@x" a name group ending after "J j" leaves "o@x" for the address. */
  lemma AsWrittenNamedTail()
    ensures TryName("J jo@x", 0, 3, false) == Some(("J j", "o@x"))
  {
    var s := "J jo@x";
    var t := s[3..6];
    assert t == "o@x" && t[1] == '@';
    assert InnerAt(t);
    assert TryAddr(s, 3) == Some("o@x");
    assert NonSpaceFrom(s, 3) == 3;
    assert TryClose(s, 3, false) == Some("o@x");
    assert s[0..3] == "J j";
  }

  /** With neither a blank nor a '<' at `g`, the name group cannot end at `g`. */
  lemma GluedBlank(s: string, g: nat)
    requires g <= |s| && (g < |s| ==> !IsSpace(s[g]) && s[g] != '<')
    ensures TryBlank(s, g, NonSpaceFrom(s, g), true).None?
  {
  }

  /** Nor at `n`, with its closing quote or without, when no blank or '<' follows. */
  lemma GluedClose(s: string, n: nat)
    requires n <= |s| && forall k :: n <= k < |s| ==> !IsSpace(s[k]) && s[k] != '<'
    ensures TryClose(s, n, true).None?
  {
    if n < |s| && s[n] == '"' {
      GluedBlank(s, n + 1);
    }
    GluedBlank(s, n);
  }

  /** The name group ends nowhere after `lo` when the rest of the string has no blank and no '<'. */
  lemma {:induction false} GluedSkipped(s: string, q: nat, lo: nat, n: nat)
    requires q <= lo <= n <= |s|
    requires forall k :: lo < k < |s| ==> !IsSpace(s[k]) && s[k] != '<'
    ensures TryName(s, q, n, true) == TryName(s, q, lo, true)
    decreases n
  {
    if n > lo {
      GluedClose(s, n);
      GluedSkipped(s, q, lo, n - 1);
    }
  }

  /** A bare address (no blank, no '<' or '>', an inner '@') parses to no name and the whole address. */
  lemma BareAddress(s: string)
    requires Lacks(s, '<') && Lacks(s, '>') && !HasSpace(s) && InnerAt(s)
    ensures ParseRecipient(Str(s)) == Some(Parsed("", s))
  {
    if |s| > 0 && s[0] == '"' {
      GluedSkipped(s, 1, 1, NameEnd(s, 1));
      GluedClose(s, 1);
    }
    GluedSkipped(s, 0, 0, NameEnd(s, 0));
    GluedClose(s, 0);
    assert AddrEnd(s, 0) == |s|;
    assert s[0..|s|] == s;
    TrimNoSpace(s);
    TrimNoSpace("");
  }

  /** A name, a blank and an address: the name trimmed, and the address whole. */
  lemma NamedAddress(name: string, email: string)
    requires Lacks(name, '"') && Lacks(name, '<')
    requires Lacks(email, '"') && Lacks(email, '<') && Lacks(email, '>') && !HasSpace(email) && InnerAt(email)
    ensures ParseRecipient(Str(name + " " + email)) == Some(Parsed(Trim(name), email))
  {
    var s := name + " " + email;
    var n := |name|;
    NamedShape(name, email);
    GluedSkipped(s, 0, n, |s|);
    NamedTail(name, email);
    assert TryName(s, 0, n, true) == Some((name, email)) by {
      assert s[0..n] == name;
    }
    TrimNoSpace(email);
  }

  /** In `name email` the name group may run to the end, and nothing after the blank separates. */
  lemma NamedShape(name: string, email: string)
    requires Lacks(name, '"') && Lacks(name, '<')
    requires Lacks(email, '"') && Lacks(email, '<') && !HasSpace(email)
    ensures var s := name + " " + email;
      NameEnd(s, 0) == |s| && s[0] != '"' &&
      forall k :: |name| < k < |s| ==> !IsSpace(s[k]) && s[k] != '<'
  {
    var s := name + " " + email;
    var n := |name|;
    assert forall k :: n < k < |s| ==> s[k] == email[k - n - 1];
    assert forall k :: 0 <= k < n ==> s[k] == name[k];
    assert forall k :: 0 <= k < |s| ==> s[k] != '"' && s[k] != '<' by {
      forall k | 0 <= k < |s|
        ensures s[k] != '"' && s[k] != '<'
      {
        if k < n {
          assert s[k] == name[k];
        } else if k > n {
          assert s[k] == email[k - n - 1];
        }
      }
    }
  }

  /** After the name, the blank and then the whole address. */
  lemma NamedTail(name: string, email: string)
    requires Lacks(email, '<') && Lacks(email, '>') && !HasSpace(email) && InnerAt(email)
    ensures var s := name + " " + email;
      TryClose(s, |name|, true) == Some(email)
  {
    var s := name + " " + email;
    var n := |name|;
    assert s[n] == ' ' && IsSpace(s[n]);
    assert forall k :: n < k < |s| ==> s[k] == email[k - n - 1];
    assert s[n + 1] == email[0] && !IsSpace(email[0]);
    assert NonSpaceFrom(s, n + 1) == n + 1;
    assert NonSpaceFrom(s, n) == n + 1;
    assert AddrEnd(s, n + 1) == |s|;
    assert s[n + 1..|s|] == email;
    assert TryAngle(s, n + 1) == Some(email);
  }

  /** `name <email>` parses back to the trimmed name and the trimmed address, both as written and as intended. */
  lemma AngleForm(name: string, email: string, needsGap: bool)
    requires Lacks(name, '"') && Lacks(name, '<') && Lacks(email, '>') && InnerAt(email)
    ensures ParseText(name + " <" + email + ">", needsGap) == Some(Parsed(Trim(name), Trim(email)))
  {
    var s := name + " <" + email + ">";
    var n := |name| + 1;
    AngleName(name, email);
    AngleAddress(name, email, needsGap);
    assert TryName(s, 0, n, needsGap) == Some((s[0..n], email));
    assert Match(s, needsGap) == Some((s[0..n], email));
    assert s[0..n] == name + " ";
    TrimTrailingSpace(name, " ");
  }

  /** In `name <email>` the name part ends at the `<` and does not open a quote. */
  lemma AngleName(name: string, email: string)
    requires Lacks(name, '"') && Lacks(name, '<')
    ensures var s := name + " <" + email + ">";
      NameEnd(s, 0) == |name| + 1 && s[0] != '"'
  {
    var s := name + " <" + email + ">";
    var n := |name| + 1;
    assert s[n] == '<';
    assert forall k :: 0 <= k < n ==> s[k] != '"' && s[k] != '<' by {
      forall k | 0 <= k < n
        ensures s[k] != '"' && s[k] != '<'
      {
        if k < |name| {
          assert s[k] == name[k];
        }
      }
    }
  }

  /** In `name <email>` the bracketed part, right after the name, is the address. */
  lemma AngleAddress(name: string, email: string, needsGap: bool)
    requires Lacks(email, '>') && InnerAt(email)
    ensures var s := name + " <" + email + ">";
      TryClose(s, |name| + 1, needsGap) == Some(email)
  {
    var s := name + " <" + email + ">";
    var n := |name| + 1;
    assert s[n] == '<' && s[|s| - 1] == '>';
    assert NonSpaceFrom(s, n) == n;
    assert forall k :: n + 1 <= k < |s| - 1 ==> s[k] == email[k - n - 1];
    assert AddrEnd(s, n + 1) == |s| - 1;
    assert s[n + 1..|s| - 1] == email;
    assert TryAddr(s, n + 1) == Some(email);
    assert TryBlank(s, n, n, needsGap) == Some(email);
  }

  /** `matchesQuery`: an empty query matches all; otherwise a case-insensitive substring of the name or the address. */
  predicate MatchesQuery(name: string, email: string, query: string) {
    query == "" || Contains(Lower(name), Lower(query)) || Contains(Lower(email), Lower(query))
  }

  lemma ContainsPrefix(hay: string, a: string, b: string)
    requires Contains(hay, a + b)
    ensures Contains(hay, a)
  {
    var i :| 0 <= i <= |hay| && OccursAt(hay, a + b, i);
    assert hay[i..i + |a|] == (a + b)[..|a|];
    assert OccursAt(hay, a, i);
  }

  /** Typing more of the query only narrows the matches. */
  lemma MatchesNarrow(name: string, email: string, query: string, more: string)
    requires MatchesQuery(name, email, query + more)
    ensures MatchesQuery(name, email, query)
  {
    if query != "" {
      assert Lower(query + more) == Lower(query) + Lower(more);
      if Contains(Lower(name), Lower(query + more)) {
        ContainsPrefix(Lower(name), Lower(query), Lower(more));
      } else {
        ContainsPrefix(Lower(email), Lower(query), Lower(more));
      }
    }
  }

  /** A contact always matches its own address, whatever its case. */
  lemma MatchesOwnAddress(name: string, email: string)
    ensures MatchesQuery(name, email, email)
  {
    if email != "" {
      assert OccursAt(Lower(email), Lower(email), 0);
    }
  }

  // ---------------------------------------------------------------- vCard

  /** `split(/\r?\n/)`: a '\r' right before a '\n' belongs to the separator. */
  function SplitLines(s: string): (ls: seq<string>)
    ensures |ls| >= 1
    ensures forall k :: 0 <= k < |ls| ==> Lacks(ls[k], '\n')
    decreases |s|
  {
    var i := IndexOf(s, '\n');
    if i == |s| then [s]
    else [if i > 0 && s[i - 1] == '\r' then s[..i - 1] else s[..i]] + SplitLines(s[i + 1..])
  }

  /** The name an `FN:` line sets. */
  function NameLine(line: string): Option<string> {
    if StartsWith(line, "FN:") then Some(Trim(line[3..])) else None
  }

  /** The address an `EMAIL...:` line adds: the trimmed text after its first colon, when not empty. */
  function EmailLine(line: string): (r: Option<string>)
    ensures r.Some? ==> r.value != "" && Trim(r.value) == r.value
  {
    var i := IndexOf(line, ':');
    if StartsWith(line, "EMAIL") && i < |line| && Trim(line[i + 1..]) != "" then
      TrimTwice(line[i + 1..]);
      Some(Trim(line[i + 1..]))
    else None
  }

  lemma TrimTwice(s: string)
    ensures Trim(Trim(s)) == Trim(s)
  {
    var t := Trim(s);
    if t != [] {
      assert NonSpaceFrom(t, 0) == 0;
      assert t[0..] == t;
    }
  }

  function CardName(lines: seq<string>): string {
    if lines == [] then ""
    else match NameLine(lines[|lines| - 1])
      case Some(n) => n
      case None => CardName(lines[..|lines| - 1])
  }

  function CardEmails(lines: seq<string>): seq<string> {
    if lines == [] then []
    else
      var last := EmailLine(lines[|lines| - 1]);
      CardEmails(lines[..|lines| - 1]) + (if last.Some? then [last.value] else [])
  }

  /** parseVCard: the name and the addresses of a vCard ("" or absent gives neither). */
  function VCard(v: string): (string, seq<string>) {
    if v == "" then ("", []) else (CardName(SplitLines(v)), CardEmails(SplitLines(v)))
  }

  /** Without an `FN:` line the name is "". */
  lemma {:induction false} CardNameAbsent(lines: seq<string>)
    requires forall i :: 0 <= i < |lines| ==> NameLine(lines[i]).None?
    ensures CardName(lines) == ""
  {
    if lines != [] {
      var init := lines[..|lines| - 1];
      assert forall i :: 0 <= i < |init| ==> init[i] == lines[i];
      CardNameAbsent(init);
    }
  }

  /** The name comes from the last `FN:` line. */
  lemma {:induction false} CardNameLast(lines: seq<string>, i: nat)
    requires i < |lines| && NameLine(lines[i]).Some?
    requires forall j :: i < j < |lines| ==> NameLine(lines[j]).None?
    ensures CardName(lines) == NameLine(lines[i]).value
  {
    if i < |lines| - 1 {
      var init := lines[..|lines| - 1];
      assert forall j :: 0 <= j < |init| ==> init[j] == lines[j];
      CardNameLast(init, i);
    }
  }

  /** Every address a line gives is collected. */
  lemma {:induction false} CardEmailsHas(lines: seq<string>, i: nat)
    requires i < |lines| && EmailLine(lines[i]).Some?
    ensures EmailLine(lines[i]).value in CardEmails(lines)
  {
    var init := lines[..|lines| - 1];
    if i < |lines| - 1 {
      assert init[i] == lines[i];
      CardEmailsHas(init, i);
    }
  }

  /** Every collected address comes from a line that gives it. */
  lemma {:induction false} CardEmailsFrom(lines: seq<string>, e: string)
    requires e in CardEmails(lines)
    ensures exists i :: 0 <= i < |lines| && EmailLine(lines[i]) == Some(e)
  {
    var init := lines[..|lines| - 1];
    var last := EmailLine(lines[|lines| - 1]);
    if e in CardEmails(init) {
      CardEmailsFrom(init, e);
      var i :| 0 <= i < |init| && EmailLine(init[i]) == Some(e);
      assert lines[i] == init[i];
    } else {
      assert last == Some(e);
    }
  }

  /** The addresses of two runs of lines are those of the first, then those of the second. */
  lemma {:induction false} CardEmailsAppend(a: seq<string>, b: seq<string>)
    ensures CardEmails(a + b) == CardEmails(a) + CardEmails(b)
    decreases |b|
  {
    if b == [] {
      assert a + b == a;
    } else {
      var b' := b[..|b| - 1];
      assert (a + b)[..|a + b| - 1] == a + b';
      assert (a + b)[|a + b| - 1] == b[|b| - 1];
      CardEmailsAppend(a, b');
    }
  }

  /** parseVCard: no lines for an empty card, else the loop over its lines. */
  method ParseVCard(v: string) returns (name: string, emails: seq<string>)
    ensures (name, emails) == VCard(v)
    ensures forall k :: 0 <= k < |emails| ==> emails[k] != "" && Trim(emails[k]) == emails[k]
  {
    if v == "" {
      return "", [];
    }
    name, emails := ScanCard(SplitLines(v));
  }

  /** The loop of parseVCard over the card's lines. */
  method ScanCard(lines: seq<string>) returns (name: string, emails: seq<string>)
    ensures name == CardName(lines) && emails == CardEmails(lines)
    ensures forall k :: 0 <= k < |emails| ==> emails[k] != "" && Trim(emails[k]) == emails[k]
  {
    name, emails := "", [];
    var i := 0;
    while i < |lines|
      invariant 0 <= i <= |lines|
      invariant name == CardName(lines[..i]) && emails == CardEmails(lines[..i])
      invariant forall k :: 0 <= k < |emails| ==> emails[k] != "" && Trim(emails[k]) == emails[k]
    {
      var line := lines[i];
      assert lines[..i + 1][..i] == lines[..i];
      name := NameStep(name, line);
      emails := EmailStep(emails, line);
      i := i + 1;
    }
    assert lines[..i] == lines;
  }

  /** The `FN:` test of the line loop. */
  method NameStep(name0: string, line: string) returns (name: string)
    ensures name == if NameLine(line).Some? then NameLine(line).value else name0
  {
    name := name0;
    if StartsWith(line, "FN:") {
      name := Trim(line[3..]);
    }
  }

  /** The `EMAIL` test of the line loop. */
  method EmailStep(emails0: seq<string>, line: string) returns (emails: seq<string>)
    ensures emails == emails0 + if EmailLine(line).Some? then [EmailLine(line).value] else []
  {
    emails := emails0;
    if StartsWith(line, "EMAIL") {
      var colon := IndexOf(line, ':');
      if colon < |line| {
        var email := Trim(line[colon + 1..]);
        if email != "" {
          emails := emails + [email];
        }
      }
    }
  }

  // --------------------------------------------------- ensureRecipientInTo

  /** Which parseRecipient decides a match: the regular expression as written, or the corrected one. */
  datatype Parser = AsWritten | Intended

  function ParseWith(p: Parser, e: Entry): (r: Option<Parsed>)
    ensures e.Obj? ==> r == Some(Parsed(e.name, e.email))
  {
    if p.AsWritten? then ParseRecipientAsWritten(e) else ParseRecipient(e)
  }

  /** The entry parses to an address equal to `emailLower` ignoring case. */
  predicate SameAddress(p: Parser, e: Entry, emailLower: string) {
    var r := ParseWith(p, e);
    r.Some? && Lower(r.value.email) == emailLower
  }

  /** `name <email>`, or the bare address without a name. */
  function Format(name: string, email: string): Entry {
    Str(if name != "" then name + " <" + email + ">" else email)
  }

  /** The entries that are unparseable or name another address, in their order. */
  function Without(p: Parser, rs: seq<Entry>, emailLower: string): (r: seq<Entry>)
    ensures |r| <= |rs|
  {
    if rs == [] then []
    else (if SameAddress(p, rs[0], emailLower) then [] else [rs[0]]) + Without(p, rs[1..], emailLower)
  }

  /** Without keeps exactly the entries that do not name the address. */
  lemma {:induction false} WithoutMembers(p: Parser, rs: seq<Entry>, emailLower: string)
    ensures forall x :: x in Without(p, rs, emailLower) <==> x in rs && !SameAddress(p, x, emailLower)
  {
    if rs != [] {
      WithoutMembers(p, rs[1..], emailLower);
      assert forall x :: x in rs <==> x == rs[0] || x in rs[1..];
    }
  }

  /** Without keeps the order of what it keeps: filtering two runs is filtering each. */
  lemma {:induction false} WithoutAppend(p: Parser, a: seq<Entry>, b: seq<Entry>, emailLower: string)
    ensures Without(p, a + b, emailLower) == Without(p, a, emailLower) + Without(p, b, emailLower)
  {
    if a != [] {
      var rest := a[1..] + b;
      assert a + b == [a[0]] + rest;
      WithoutHead(p, a[0], rest, emailLower);
      WithoutHead(p, a[0], a[1..], emailLower);
      assert a == [a[0]] + a[1..];
      WithoutAppend(p, a[1..], b, emailLower);
    } else {
      assert a + b == b;
    }
  }

  /** One entry in front: kept or dropped, then the rest filtered. */
  lemma WithoutHead(p: Parser, x: Entry, rest: seq<Entry>, emailLower: string)
    ensures Without(p, [x] + rest, emailLower) ==
      (if SameAddress(p, x, emailLower) then [] else [x]) + Without(p, rest, emailLower)
  {
    assert ([x] + rest)[0] == x && ([x] + rest)[1..] == rest;
  }

  lemma {:induction false} WithoutIdempotent(p: Parser, rs: seq<Entry>, emailLower: string)
    ensures Without(p, Without(p, rs, emailLower), emailLower) == Without(p, rs, emailLower)
  {
    if rs != [] {
      var head := if SameAddress(p, rs[0], emailLower) then [] else [rs[0]];
      WithoutIdempotent(p, rs[1..], emailLower);
      WithoutAppend(p, head, Without(p, rs[1..], emailLower), emailLower);
      if head != [] {
        assert Without(p, head, emailLower) == head by {
          assert head[1..] == [];
        }
      }
    }
  }

  /** ensureRecipientInTo: the new To, Cc and Bcc, or none when the address is already in To (no update is sent). */
  function EnsureRecipientInTo(p: Parser, d: Details, email: string, name: string): (r: Option<Details>)
    ensures r.None? <==> exists i :: 0 <= i < |d.to| && SameAddress(p, d.to[i], Lower(email))
    ensures r.Some? ==> |r.value.to| == |d.to| + 1 && r.value.to[..|d.to|] == d.to
  {
    var lo := Lower(email);
    if exists i | 0 <= i < |d.to| :: SameAddress(p, d.to[i], lo) then None
    else
      var to := d.to + [Format(name, email)];
      assert to[..|d.to|] == d.to;
      Some(Details(to, Without(p, d.cc, lo), Without(p, d.bcc, lo)))
  }

  /** The addresses the formatted entry parses back to. */
  predicate Formattable(name: string, email: string) {
    Lacks(email, '>') && InnerAt(email) && Trim(email) == email &&
    (name != "" ==> Lacks(name, '"') && Lacks(name, '<')) &&
    (name == "" ==> Lacks(email, '<') && !HasSpace(email))
  }

  /**
   * The formatted recipient parses back to its address: always under the
   * corrected parser, and under the one as written when there is a name
   * (a bare address is split, see AsWrittenAppendsAgain).
   */
  lemma FormatParses(p: Parser, name: string, email: string)
    requires Formattable(name, email) && (p.AsWritten? ==> name != "")
    ensures SameAddress(p, Format(name, email), Lower(email))
  {
    if name != "" {
      AngleForm(name, email, p.Intended?);
    } else {
      BareAddress(email);
    }
  }

  /**
   * After the call the address is in To and in neither Cc nor Bcc, the other
   * Cc/Bcc entries stay, and a second call changes nothing.
   */
  lemma EnsurePlacesAddress(p: Parser, d: Details, email: string, name: string)
    requires Formattable(name, email) && (p.AsWritten? ==> name != "")
    ensures var r := EnsureRecipientInTo(p, d, email, name);
      r.Some? ==>
        r.value.to[|d.to|] == Format(name, email) &&
        (forall x :: x in r.value.cc ==> !SameAddress(p, x, Lower(email))) &&
        (forall x :: x in r.value.bcc ==> !SameAddress(p, x, Lower(email))) &&
        (forall x :: x in d.cc && !SameAddress(p, x, Lower(email)) ==> x in r.value.cc) &&
        (forall x :: x in d.bcc && !SameAddress(p, x, Lower(email)) ==> x in r.value.bcc) &&
        EnsureRecipientInTo(p, r.value, email, name).None?
  {
    var r := EnsureRecipientInTo(p, d, email, name);
    if r.Some? {
      FormatParses(p, name, email);
      WithoutMembers(p, d.cc, Lower(email));
      WithoutMembers(p, d.bcc, Lower(email));
      assert SameAddress(p, r.value.to[|d.to|], Lower(email));
    }
  }

  /**
   * As written, a bare address already in To is not recognised: it is
   * appended again and a bare copy in Cc stays. The corrected parser sees it.
   */
  lemma AsWrittenAppendsAgain()
    ensures var d := Details([Str("ab@c")], [Str("ab@c")], []);
      EnsureRecipientInTo(AsWritten, d, "ab@c", "") == Some(Details([Str("ab@c"), Str("ab@c")], [Str("ab@c")], [])) &&
      EnsureRecipientInTo(Intended, d, "ab@c", "").None?
  {
    var e := Str("ab@c");
    var d := Details([e], [e], []);
    var lo := Lower("ab@c");
    AsWrittenMisses();
    assert !exists i :: 0 <= i < |d.to| && SameAddress(AsWritten, d.to[i], lo) by {
      assert d.to == [e];
    }
    assert Without(AsWritten, d.cc, lo) == [e] by {
      assert d.cc[1..] == [];
    }
    assert Without(AsWritten, d.bcc, lo) == [];
    assert Format("", "ab@c") == e;
    assert d.to + [e] == [e, e];
    IntendedSees();
    assert SameAddress(Intended, d.to[0], lo);
  }

  lemma LowerSample()
    ensures Lower("ab@c") == "ab@c" && Lower("b@c") == "b@c"
  {
    assert Lower("ab@c") == "ab@c" by {
      assert forall i :: 0 <= i < 4 ==> Lower("ab@c")[i] == "ab@c"[i];
    }
    assert forall i :: 0 <= i < 3 ==> Lower("b@c")[i] == "b@c"[i];
  }

  /** As written the bare entry "ab@c" names "b@c", not "ab@c". */
  lemma AsWrittenMisses()
    ensures Lower("ab@c") == "ab@c" && !SameAddress(AsWritten, Str("ab@c"), "ab@c")
  {
    LowerSample();
    AsWrittenSplitsBareAddress();
  }

  /** The corrected parser reads the bare entry "ab@c" as "ab@c". */
  lemma IntendedSees()
    ensures SameAddress(Intended, Str("ab@c"), Lower("ab@c"))
  {
    var s := "ab@c";
    LowerSample();
    assert s[2] == '@';
    BareAddress(s);
    SampleTrimmed();
  }

  lemma SampleTrimmed()
    ensures Trim("ab@c") == "ab@c"
  {
    var s := "ab@c";
    assert !IsSpace(s[0]) && !IsSpace(s[1]) && !IsSpace(s[2]) && !IsSpace(s[3]);
    TrimNoSpace(s);
  }
}
