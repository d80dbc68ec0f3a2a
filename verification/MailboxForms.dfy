/** From fields as mail programs write them: a mailbox without comments or folds,
    with any whitespace around it. */
module MailboxForms {
  import opened ByteStrings
  import opened HeaderCanonicalizers
  import opened Mailboxes
  import opened MailboxProperties
  import opened MailboxGrammar
  import opened MailboxExact
  import opened FromFields
  import opened UnicodeText

  /** Text without line ends and without control characters but tabs. */
  predicate OneLine(s: Bytes) { EolFree(s) && NoControls(s) }

  lemma {:induction false} OneLineUnfolds(s: Bytes)
    requires EolFree(s)
    ensures LegallyFolded(s) && DeleteFolds(s) == s
    decreases |s|
  {
    if s != [] {
      assert forall i :: 0 <= i < |s| - 1 ==> s[1..][i] == s[i + 1];
      OneLineUnfolds(s[1..]);
      assert s == [s[0]] + s[1..];
    }
  }

  // ----- no comments -----

  /** No parenthesis outside quotes. */
  predicate Uncommented(s: Bytes, q: Quote)
    decreases |s|
  {
    if s == [] then q == CLOSED
    else (q == CLOSED ==> s[0] != '(' && s[0] != ')') && Uncommented(s[1..], QuoteStep(q, s[0]))
  }

  lemma {:induction false} PassesIsUncommented(s: Bytes, q: Quote)
    requires Passes(s, q)
    ensures Uncommented(s, q)
    decreases |s|
  {
    if s != [] {
      PassesIsUncommented(s[1..], QuoteStep(q, s[0]));
    }
  }

  lemma {:induction false} UncommentedConcat(a: Bytes, b: Bytes, q: Quote)
    requires Uncommented(a, q) && Uncommented(b, CLOSED)
    ensures Uncommented(a + b, q)
    decreases |a|
  {
    if a == [] {
      assert a + b == b;
    } else {
      UncommentedConcat(a[1..], b, QuoteStep(q, a[0]));
      assert (a + b)[1..] == a[1..] + b;
    }
  }

  lemma MarkIsUncommented(b: Byte)
    requires b != '(' && b != ')' && b != '"'
    ensures Uncommented([b], CLOSED)
  {
    assert [b][1..] == [];
  }

  lemma AddressIsUncommented(a: Address)
    requires ValidAddress(a)
    ensures Uncommented(AddressBytes(a), CLOSED)
  {
    SidesPass(a);
    PassesIsUncommented(LeftOf(a), CLOSED);
    PassesIsUncommented(RightOf(a), CLOSED);
    MarkIsUncommented('@');
    UncommentedConcat(LeftOf(a), ['@'], CLOSED);
    UncommentedConcat(LeftOf(a) + ['@'], RightOf(a), CLOSED);
  }

  lemma MailboxIsUncommented(m: Mailbox)
    requires ValidMailbox(m)
    ensures Uncommented(MailboxBytes(m), CLOSED)
  {
    AddressIsUncommented(m.address);
    if m.Named? {
      var name, inner := WordsBytes(m.name), AddressBytes(m.address);
      WordsPass(m.name);
      PassesIsUncommented(name, CLOSED);
      SpacePasses(m.trail);
      PassesIsUncommented(m.trail, CLOSED);
      MarkIsUncommented('<');
      MarkIsUncommented('>');
      UncommentedConcat(name, ['<'], CLOSED);
      UncommentedConcat(name + ['<'], inner, CLOSED);
      UncommentedConcat(name + ['<'] + inner, ['>'], CLOSED);
      UncommentedConcat(name + ['<'] + inner + ['>'], m.trail, CLOSED);
    }
  }

  lemma {:induction false} UncommentedScans(out: Bytes, q: Quote, s: Bytes)
    requires Uncommented(s, q) && WellQuoted(q)
    ensures ScanRun(Scan(out, q, 0), s) == Scan(out + s, CLOSED, 0)
    decreases |s|
  {
    if s == [] {
      assert out + s == out;
    } else {
      assert ScanStep(Scan(out, q, 0), s[0]) == Scan(out + [s[0]], QuoteStep(q, s[0]), 0);
      UncommentedScans(out + [s[0]], QuoteStep(q, s[0]), s[1..]);
      assert out + [s[0]] + s[1..] == out + s;
    }
  }

  // ----- whitespace around a mailbox -----

  /** Trimming a text that starts with no whitespace character and ends in an ASCII
      character, with whitespace around it. */
  lemma TrimAroundText(a: Bytes, c: Bytes, b: Bytes)
    requires AllSpace(a) && AllSpace(b) && c != [] && SpaceAt(c, 0, |c|) == 0 && Firm(c[|c| - 1])
    ensures Trim(a + c + b) == c
  {
    var t, n := a + c + b, |a| + |c|;
    RangeMoves(a, 0, |a|, t, 0);
    RangeMoves(b, 0, |b|, t, n);
    assert forall k :: 0 <= k < |c| ==> t[|a| + k] == c[k];
    NoSpaceThere(t, |a|, c);
    TextStops(t, |a|, n);
    assert t[|a|..n] == c;
  }

  lemma TextStops(t: Bytes, p: nat, f: nat)
    requires SpaceRange(t, 0, p) && SpaceRange(t, f, |t|) && p < f <= |t|
    requires SpaceAt(t, p, |t|) == 0 && Firm(t[f - 1])
    ensures Trim(t) == t[p..f]
  {
    TrimStopsLow(t, 0, p);
    TrimStopsHigh(t, p, f, |t|);
  }

  lemma NoSpaceThere(t: Bytes, i: nat, c: Bytes)
    requires i + |c| <= |t| && forall k :: 0 <= k < |c| ==> t[i + k] == c[k]
    requires c != [] && SpaceAt(c, 0, |c|) == 0 && Firm(c[|c| - 1])
    ensures SpaceAt(t, i, |t|) == 0
  {
    assert t[i + 0] == c[0];
    assert |c| > 1 ==> t[i + 1] == c[1];
    assert |c| > 2 ==> t[i + 2] == c[2];
  }

  lemma {:induction false} TextAfterSpace(s: Bytes, i: nat)
    requires i <= |s|
    ensures SpaceAt(s, TrimLowFrom(s, i), |s|) == 0
    decreases |s| - i
  {
    var w := SpaceAt(s, i, |s|);
    if w > 0 {
      TextAfterSpace(s, i + w);
    }
  }

  lemma {:induction false} DisplayAfterBlanks(lead: Bytes, rest: Bytes)
    requires BlankRange(lead, 0, |lead|) && DisplayFrom(lead + rest, CLOSED)
    ensures DisplayFrom(rest, CLOSED)
    decreases |lead|
  {
    if lead == [] {
      assert lead + rest == rest;
    } else {
      assert (lead + rest)[1..] == lead[1..] + rest;
      DisplayAfterBlanks(lead[1..], rest);
    }
  }

  /** A name without the whitespace it starts with. */
  lemma NameParts(name: Words) returns (lead: Bytes, rest: Words)
    requires ValidWords(name)
    ensures ValidWords(rest) && AllSpace(lead) && WordsBytes(name) == lead + WordsBytes(rest)
    ensures SpaceAt(WordsBytes(rest), 0, |WordsBytes(rest)|) == 0
  {
    var s := WordsBytes(name);
    var low := TrimLowFrom(s, 0);
    lead := s[..low];
    LowIsSpace(s, 0);
    RangeMoves(s, 0, low, lead, 0);
    RangeIsBlank(lead, 0, low);
    assert s == lead + s[low..];
    WordsDisplay(name);
    DisplayAfterBlanks(lead, s[low..]);
    rest := WordsOf(s[low..]);
    TextAfterSpace(s, 0);
    NoSpaceInTail(s, low);
  }

  lemma NoSpaceInTail(s: Bytes, low: nat)
    requires low <= |s| && SpaceAt(s, low, |s|) == 0
    ensures SpaceAt(s[low..], 0, |s| - low) == 0
  {
  }

  lemma NoSpaceBefore(name: Bytes, rest: Bytes)
    requires SpaceAt(name, 0, |name|) == 0 && rest != [] && rest[0] == '<'
    ensures SpaceAt(name + rest, 0, |name + rest|) == 0
  {
    var s := name + rest;
    assert s[|name|] == '<' && forall k :: 0 <= k < |name| ==> s[k] == name[k];
  }

  /** Trimming a mailbox leaves a mailbox with the same address host. */
  lemma TrimmedMailbox(m: Mailbox) returns (t: Mailbox)
    requires ValidMailbox(m)
    ensures ValidMailbox(t) && MailboxBytes(t) == Trim(MailboxBytes(m)) && t.address.host == m.address.host
  {
    match m
    case Alone(a) =>
      TrimmedAddress(a);
      t := Alone(Bared(a));
    case Named(name, a, trail) =>
      var lead, rest := NameParts(name);
      t := Named(rest, a, []);
      var tail := ['<'] + AddressBytes(a) + ['>'];
      NoSpaceBefore(WordsBytes(rest), tail);
      NamedBytes(lead, WordsBytes(rest), AddressBytes(a), trail);
      var core := WordsBytes(rest) + tail;
      assert core[|core| - 1] == tail[|tail| - 1] == '>';
      TrimAroundText(lead, core, trail);
  }

  lemma NamedBytes(lead: Bytes, name: Bytes, inner: Bytes, trail: Bytes)
    ensures (lead + name) + ['<'] + inner + ['>'] + trail == lead + (name + (['<'] + inner + ['>'])) + trail
    ensures name + ['<'] + inner + ['>'] + [] == name + (['<'] + inner + ['>'])
  {
  }

  /** Every mailbox on one line of well-formed UTF-8 gives the host of its address in
      lower case: any display name, quoted pairs and non-ASCII text included, any
      quoted local part, and any whitespace around the parts. */
  lemma MailboxGivesDomain(m: Mailbox)
    requires ValidMailbox(m) && OneLine(MailboxBytes(m)) && Utf8(MailboxBytes(m))
    ensures DomainOf(MailboxBytes(m)) == Some(LowerAll(m.address.host))
  {
    MailboxIsUncommented(m);
    var t := TrimmedMailbox(m);
    MailboxAccepted(t);
    AsItStands(MailboxBytes(m), MailboxBytes(t), Some(LowerAll(m.address.host)));
  }

  lemma AsItStands(s: Bytes, text: Bytes, d: Option<Bytes>)
    requires OneLine(s) && Utf8(s) && Uncommented(s, CLOSED) && text == Trim(s) && MailboxDomain(text) == d
    ensures DomainOf(s) == d
  {
    OneLineUnfolds(s);
    UnfoldsExactly(s);
    UncommentedScans([], CLOSED, s);
    assert [] + s == s;
  }

  // ----- the shortest forms -----

  function Simple(local: Bytes, host: Bytes): Address { Address([], Atoms(local), [], [], host, 0, []) }

  lemma SimpleBytes(local: Bytes, host: Bytes)
    requires DotAtom(local) && HostName(host)
    ensures ValidAddress(Simple(local, host)) && AddressBytes(Simple(local, host)) == local + ['@'] + host
    ensures OneLine(local + ['@'] + host) && Utf8(local + ['@'] + host)
  {
    assert [] + local + [] == local && [] + (host + []) + [] == host;
    AtomsArePrintable(local);
    HostIsPrintable(host);
    var s := local + ['@'] + host;
    assert AllPrintable(s);
    PrintableIsText(s);
  }

  predicate AllPrintable(s: Bytes) { forall i :: 0 <= i < |s| ==> Within(s[i], 0x20, 0x7E) }

  lemma AtomsArePrintable(s: Bytes)
    requires DotAtom(s)
    ensures AllPrintable(s)
  {
    forall i | 0 <= i < |s|
      ensures Within(s[i], 0x20, 0x7E)
    {
      AtomByteIsPrintable(s[i]);
    }
  }

  lemma AtomByteIsPrintable(b: Byte)
    requires IsAtomByte(b) || b == '.'
    ensures Within(b, 0x20, 0x7E)
  {
  }

  lemma HostIsPrintable(s: Bytes)
    requires HostName(s)
    ensures AllPrintable(s)
  {
  }

  lemma {:induction false} PrintableIsText(s: Bytes)
    requires AllPrintable(s)
    ensures OneLine(s) && Utf8(s)
    decreases |s|
  {
    if s != [] {
      assert forall i :: 0 <= i < |s| - 1 ==> s[1..][i] == s[i + 1];
      PrintableIsText(s[1..]);
    }
  }

  /** A dot-atom at a host gives the host. */
  lemma AddressGivesDomain(local: Bytes, host: Bytes)
    requires DotAtom(local) && HostName(host)
    ensures DomainOf(local + ['@'] + host) == Some(LowerAll(host))
  {
    SimpleBytes(local, host);
    MailboxGivesDomain(Alone(Simple(local, host)));
  }

  /** A break after a break is not invisible: whatever the name and the address,
      this field has a domain, and with a second break it has none. */
  lemma BreakAfterBreak(name: Bytes, local: Bytes, host: Bytes)
    requires DotAtom(name) && DotAtom(local) && HostName(host)
    ensures var address := ['<'] + (local + ['@'] + host) + ['>'];
            && DomainOf(name + CRLF + [' '] + address) == Some(LowerAll(host))
            && DomainOf(name + CRLF + CRLF + [' '] + address) == None
  {
    var address := ['<'] + (local + ['@'] + host) + ['>'];
    AtomsAreFirm(name);
    AtomsArePrintable(name);
    assert !EndsWithCrlf(name) && EndsWithCrlf(name + CRLF);
    FoldIsInvisible(name, ' ', address);
    FoldIsInvisible(name + CRLF, ' ', address);
    NamedGivesDomain(name, local, host, address);
  }

  lemma {:induction false} WordsFor(s: Bytes) returns (words: Words)
    requires forall i :: 0 <= i < |s| ==> IsAtomByte(s[i]) || s[i] == '.'
    ensures ValidWords(words) && WordsBytes(words) == s + SP
    decreases |s|
  {
    if s == [] {
      words := WordByte(' ', NoWords);
    } else {
      var rest := WordsFor(s[1..]);
      words := WordByte(s[0], rest);
      assert s == [s[0]] + s[1..];
      ConcatAssoc([s[0]], s[1..], SP);
    }
  }

  lemma NamedGivesDomain(name: Bytes, local: Bytes, host: Bytes, address: Bytes)
    requires DotAtom(name) && DotAtom(local) && HostName(host)
    requires address == ['<'] + (local + ['@'] + host) + ['>']
    ensures DomainOf(name + [' '] + address) == Some(LowerAll(host))
  {
    var m, s := NamedMailbox(name, local, host, address);
    NamedIsPrintable(name, local, host, s);
    PrintableIsText(s);
    MailboxGivesDomain(m);
  }

  lemma NamedMailbox(name: Bytes, local: Bytes, host: Bytes, address: Bytes) returns (m: Mailbox, s: Bytes)
    requires DotAtom(name) && DotAtom(local) && HostName(host)
    requires address == ['<'] + (local + ['@'] + host) + ['>']
    ensures ValidMailbox(m) && m.address.host == host && s == name + [' '] + address && MailboxBytes(m) == s
  {
    var words := WordsFor(name);
    SimpleBytes(local, host);
    m, s := Named(words, Simple(local, host), []), name + [' '] + address;
    NamedText(name, local + ['@'] + host);
  }

  lemma NamedText(name: Bytes, inner: Bytes)
    ensures (name + SP) + ['<'] + inner + ['>'] + [] == name + [' '] + (['<'] + inner + ['>'])
  {
  }

  lemma NamedIsPrintable(name: Bytes, local: Bytes, host: Bytes, s: Bytes)
    requires DotAtom(name) && DotAtom(local) && HostName(host)
    requires s == name + [' '] + (['<'] + (local + ['@'] + host) + ['>'])
    ensures AllPrintable(s)
  {
    AtomsArePrintable(name);
    AtomsArePrintable(local);
    HostIsPrintable(host);
  }
}
