/** The mailbox of a From field: display phrase, brackets and address, as a
    grammar, and the proof that the program accepts exactly what it describes. */
module MailboxExact {
  import opened ByteStrings
  import opened HeaderCanonicalizers
  import opened Mailboxes
  import opened MailboxProperties
  import opened MailboxGrammar

  predicate IsControl(b: Byte) { b as int < 0x20 || b as int == 0x7F }

  // ----- display phrases -----

  /** Words, dots, spaces and non-ASCII characters, and quoted strings. */
  datatype Words =
    | NoWords
    | WordByte(b: Byte, rest: Words)
    | WordQuoted(cs: Chars, rest: Words)

  function WordsBytes(words: Words): Bytes {
    match words
    case NoWords => []
    case WordByte(b, rest) => [b] + WordsBytes(rest)
    case WordQuoted(cs, rest) => InQuotes(cs) + WordsBytes(rest)
  }

  /** Any character but a control, tabs allowed unless they are quoted as pairs. */
  predicate ShownChars(cs: Chars) {
    match cs
    case NoChars => true
    case Char(b, rest) => b != '"' && b != '\\' && (b == '\t' || !IsControl(b)) && ShownChars(rest)
    case Escaped(b, rest) => !IsControl(b) && ShownChars(rest)
  }

  predicate ValidWords(words: Words) {
    match words
    case NoWords => true
    case WordByte(b, rest) => (IsAtomByte(b) || b == '.' || IsAsciiSpace(b) || !IsAscii(b)) && ValidWords(rest)
    case WordQuoted(cs, rest) => ShownChars(cs) && ValidWords(rest)
  }

  lemma DisplayCons(b: Byte, rest: Bytes, q: Quote)
    ensures DisplayFrom([b] + rest, q) <==>
              && (if q.escaped then !IsAsciiControl(b)
                  else if q.quoted then b == '"' || b == '\\' || !IsAsciiControl(b) || b == '\t'
                  else b == '"' || DisplayByte(b))
              && DisplayFrom(rest, QuoteStep(q, b))
  {
    assert ([b] + rest)[1..] == rest;
  }

  lemma {:induction false} CharsDisplay(cs: Chars, rest: Bytes)
    requires ShownChars(cs) && DisplayFrom(rest, CLOSED)
    ensures DisplayFrom(CharsBytes(cs) + (['"'] + rest), INNER)
    decreases cs
  {
    var close := ['"'] + rest;
    match cs
    case NoChars =>
      DisplayCons('"', rest, INNER);
      assert [] + close == close;
    case Char(b, more) =>
      CharsDisplay(more, rest);
      DisplayCons(b, CharsBytes(more) + close, INNER);
      ConcatAssoc([b], CharsBytes(more), close);
    case Escaped(b, more) =>
      CharsDisplay(more, rest);
      DisplayCons(b, CharsBytes(more) + close, Quote(true, true));
      DisplayCons('\\', [b] + (CharsBytes(more) + close), INNER);
      assert ['\\', b] + CharsBytes(more) + close == ['\\'] + ([b] + (CharsBytes(more) + close));
  }

  lemma {:induction false} WordsDisplay(words: Words)
    requires ValidWords(words)
    ensures DisplayFrom(WordsBytes(words), CLOSED)
    decreases words
  {
    match words
    case NoWords =>
    case WordByte(b, rest) =>
      WordsDisplay(rest);
      DisplayCons(b, WordsBytes(rest), CLOSED);
      WordByteIsNoQuote(b);
    case WordQuoted(cs, rest) =>
      WordsDisplay(rest);
      CharsDisplay(cs, WordsBytes(rest));
      DisplayCons('"', CharsBytes(cs) + (['"'] + WordsBytes(rest)), CLOSED);
      assert InQuotes(cs) + WordsBytes(rest) == ['"'] + (CharsBytes(cs) + (['"'] + WordsBytes(rest)));
  }

  lemma WordByteIsNoQuote(b: Byte)
    requires IsAtomByte(b) || b == '.' || IsAsciiSpace(b) || !IsAscii(b)
    ensures b != '"' && DisplayByte(b)
  {
  }

  lemma {:induction false} ShownCharsOf(s: Bytes) returns (cs: Chars, rest: Bytes)
    requires DisplayFrom(s, INNER)
    ensures ShownChars(cs) && s == CharsBytes(cs) + ['"'] + rest && DisplayFrom(rest, CLOSED) && |rest| < |s|
    decreases |s|
  {
    if s[0] == '"' {
      cs, rest := NoChars, s[1..];
      assert s == [] + ['"'] + rest;
    } else {
      var n := if s[0] == '\\' then 2 else 1;
      assert n == 2 ==> s[1..] != [] && s[1..][1..] == s[2..];
      var more;
      more, rest := ShownCharsOf(s[n..]);
      cs := if n == 2 then Escaped(s[1], more) else Char(s[0], more);
      CharsFront(s, n, CharsBytes(more) + ['"'] + rest);
      Regroup(s[..n], CharsBytes(more), rest);
    }
  }

  lemma {:induction false} WordsOf(s: Bytes) returns (words: Words)
    requires DisplayFrom(s, CLOSED)
    ensures ValidWords(words) && WordsBytes(words) == s
    decreases |s|
  {
    if s == [] {
      words := NoWords;
    } else if s[0] == '"' {
      var cs, rest := ShownCharsOf(s[1..]);
      var more := WordsOf(rest);
      words := WordQuoted(cs, more);
      assert s == ['"'] + s[1..];
    } else {
      var more := WordsOf(s[1..]);
      words := WordByte(s[0], more);
      assert s == [s[0]] + s[1..];
    }
  }

  /** The display phrases accepted are exactly those of the grammar. */
  lemma DisplayExactly(s: Bytes)
    ensures DisplayFrom(s, CLOSED) <==> exists words :: ValidWords(words) && WordsBytes(words) == s
  {
    if DisplayFrom(s, CLOSED) {
      var words := WordsOf(s);
    }
    forall words | ValidWords(words) && WordsBytes(words) == s
      ensures DisplayFrom(s, CLOSED)
    {
      WordsDisplay(words);
    }
  }

  // ----- local parts -----

  /** Atom bytes and single dots, not ending in a dot. */
  predicate Dotted(s: Bytes) {
    && (forall i :: 0 <= i < |s| ==> IsAtomByte(s[i]) || s[i] == '.')
    && (s != [] ==> s[|s| - 1] != '.')
    && forall i :: 0 <= i < |s| - 1 ==> s[i] != '.' || s[i + 1] != '.'
  }

  /** The dot-atom of section 3.2.3 of RFC 5322. */
  predicate DotAtom(s: Bytes) { s != [] && s[0] != '.' && Dotted(s) }

  datatype Local = Atoms(text: Bytes) | QuotedLocal(cs: Chars)

  function LocalBytes(l: Local): Bytes {
    match l
    case Atoms(text) => text
    case QuotedLocal(cs) => InQuotes(cs)
  }

  /** Any character but a control, tabs allowed everywhere. */
  predicate LocalChars(cs: Chars) {
    match cs
    case NoChars => true
    case Char(b, rest) => b != '"' && b != '\\' && (b == '\t' || !IsControl(b)) && LocalChars(rest)
    case Escaped(b, rest) => (b == '\t' || !IsControl(b)) && LocalChars(rest)
  }

  predicate ValidLocal(l: Local) {
    match l
    case Atoms(text) => DotAtom(text)
    case QuotedLocal(cs) => LocalChars(cs)
  }

  predicate AtomBytes(s: Bytes) { forall b :: b in s ==> IsAtomByte(b) }

  predicate AllAtoms(parts: seq<Bytes>) { forall p :: p in parts ==> IsAtom(p) }

  lemma DottedCons(s: Bytes)
    requires s != []
    ensures Dotted(s) <==>
              && Dotted(s[1..])
              && (if s[0] == '.' then |s| > 1 && s[1] != '.' else IsAtomByte(s[0]))
  {
    var t := s[1..];
    assert forall i :: 1 <= i < |s| ==> s[i] == t[i - 1];
    if Dotted(t) {
      assert forall i :: 1 <= i < |s| - 1 ==> t[i - 1] != '.' || t[i] != '.';
    }
    if Dotted(s) {
      forall i | 0 <= i < |t| - 1
        ensures t[i] != '.' || t[i + 1] != '.'
      {
        assert t[i] == s[i + 1];
      }
    }
  }

  lemma AtomsCons(p: Bytes, rest: seq<Bytes>)
    ensures AllAtoms([p] + rest) <==> IsAtom(p) && AllAtoms(rest)
  {
    assert p in [p] + rest && forall q :: q in rest ==> q in [p] + rest;
  }

  lemma {:induction false} PiecesOfDotted(s: Bytes)
    ensures Dotted(s) <==> AtomBytes(Split(s, '.')[0]) && AllAtoms(Split(s, '.')[1..])
    ensures Split(s, '.')[0] != [] <==> s != [] && s[0] != '.'
    decreases |s|
  {
    if s != [] {
      var parts, rest := Split(s, '.'), Split(s[1..], '.');
      DottedCons(s);
      PiecesOfDotted(s[1..]);
      assert rest == [rest[0]] + rest[1..];
      AtomsCons(rest[0], rest[1..]);
      if s[0] == '.' {
        assert parts[1..] == rest;
      } else {
        assert parts[1..] == rest[1..] && parts[0] == [s[0]] + rest[0];
      }
    }
  }

  /** Unless it is quoted, the local part that is accepted is a dot-atom. */
  lemma LocalPartIsDotAtom(s: Bytes)
    requires s == [] || s[0] != '"'
    ensures IsLocalPart(s) <==> DotAtom(s)
  {
    PiecesOfDotted(s);
    var parts := Split(s, '.');
    assert parts == [parts[0]] + parts[1..];
    AtomsCons(parts[0], parts[1..]);
    assert IsAtom(parts[0]) <==> parts[0] != [] && AtomBytes(parts[0]);
  }

  lemma QuotedCons(b: Byte, rest: Bytes, escaped: bool)
    ensures QuotedLocalFrom([b] + rest, escaped) <==>
              && (!IsAsciiControl(b) || b == '\t')
              && (if escaped then QuotedLocalFrom(rest, false)
                  else if b == '\\' then QuotedLocalFrom(rest, true)
                  else if b == '"' then rest == []
                  else QuotedLocalFrom(rest, false))
  {
    assert ([b] + rest)[1..] == rest;
  }

  lemma {:induction false} CharsAreLocal(cs: Chars)
    requires LocalChars(cs)
    ensures QuotedLocalFrom(CharsBytes(cs) + ['"'], false)
    decreases cs
  {
    match cs
    case NoChars =>
      QuotedCons('"', [], false);
      assert ['"'] + [] == ['"'] && [] + ['"'] == ['"'];
    case Char(b, rest) =>
      CharsAreLocal(rest);
      QuotedCons(b, CharsBytes(rest) + ['"'], false);
      ConcatAssoc([b], CharsBytes(rest), ['"']);
    case Escaped(b, rest) =>
      CharsAreLocal(rest);
      QuotedCons(b, CharsBytes(rest) + ['"'], true);
      QuotedCons('\\', [b] + (CharsBytes(rest) + ['"']), false);
      assert ['\\', b] + CharsBytes(rest) + ['"'] == ['\\'] + ([b] + (CharsBytes(rest) + ['"']));
  }

  lemma {:induction false} LocalCharsOf(s: Bytes) returns (cs: Chars)
    requires QuotedLocalFrom(s, false)
    ensures LocalChars(cs) && s == CharsBytes(cs) + ['"']
    decreases |s|
  {
    if s[0] == '"' {
      cs := NoChars;
      assert s == [] + ['"'];
    } else {
      var n := if s[0] == '\\' then 2 else 1;
      assert n == 2 ==> s[1..] != [] && s[1..][1..] == s[2..];
      var more := LocalCharsOf(s[n..]);
      cs := if n == 2 then Escaped(s[1], more) else Char(s[0], more);
      CharsFront(s, n, CharsBytes(more) + ['"']);
      ConcatAssoc(s[..n], CharsBytes(more), ['"']);
    }
  }

  lemma LocalIsAccepted(l: Local)
    requires ValidLocal(l)
    ensures IsLocalPart(LocalBytes(l))
  {
    var s := LocalBytes(l);
    match l
    case Atoms(text) =>
      AtomIsNoQuote(text[0]);
      LocalPartIsDotAtom(text);
    case QuotedLocal(cs) =>
      CharsAreLocal(cs);
      assert s == ['"'] + (CharsBytes(cs) + ['"']) && s[1..] == CharsBytes(cs) + ['"'];
  }

  lemma AtomIsNoQuote(b: Byte)
    requires IsAtomByte(b) || b == '.'
    ensures b != '"'
  {
  }

  lemma LocalOf(s: Bytes) returns (l: Local)
    requires IsLocalPart(s)
    ensures ValidLocal(l) && LocalBytes(l) == s
  {
    if s[0] == '"' {
      var cs := LocalCharsOf(s[1..]);
      l := QuotedLocal(cs);
      assert s == ['"'] + s[1..];
      ConcatAssoc(['"'], CharsBytes(cs), ['"']);
    } else {
      LocalPartIsDotAtom(s);
      l := Atoms(s);
    }
  }

  /** The local parts accepted are exactly the dot-atoms and the quoted strings. */
  lemma LocalExactly(s: Bytes)
    ensures IsLocalPart(s) <==> exists l :: ValidLocal(l) && LocalBytes(l) == s
  {
    if IsLocalPart(s) {
      var l := LocalOf(s);
    }
    forall l | ValidLocal(l) && LocalBytes(l) == s
      ensures IsLocalPart(s)
    {
      LocalIsAccepted(l);
    }
  }
}
