/** The verifier's side of a signature field: tag lists (section 3.2 of RFC 6376)
    and removal of the b= value (section 3.7). */
module TagLists {
  import opened ByteStrings
  import opened HeaderCanonicalizers
  import opened Foldings

  datatype Tag = Tag(name: Bytes, value: Bytes)

  function DropFws(s: Bytes): (r: Bytes)
    ensures |r| <= |s|
  {
    if s != [] && IsFws(s[0]) then DropFws(s[1..]) else s
  }

  function DropEndFws(s: Bytes): Bytes {
    if s != [] && IsFws(s[|s| - 1]) then DropEndFws(s[..|s| - 1]) else s
  }

  function TrimFws(s: Bytes): Bytes { DropEndFws(DropFws(s)) }

  predicate IsNameByte(b: Byte) { IsAlnum(b) || b == '_' }

  predicate ValidName(name: Bytes) {
    name != [] && !IsDigit(name[0]) && forall b :: b in name ==> IsNameByte(b)
  }

  /** Printable, and not the separator of tags. */
  predicate IsValueByte(b: Byte) { '!' <= b <= '~' && b != ';' }

  predicate ValidValue(value: Bytes) { forall b :: b in value ==> IsValueByte(b) || IsFws(b) }

  function ParseTag(spec: Bytes): Option<Tag> {
    var eq := Find(spec, '=');
    if eq == |spec| then None
    else
      var name, value := TrimFws(spec[..eq]), TrimFws(spec[eq + 1..]);
      if ValidName(name) && ValidValue(value) then Some(Tag(name, value)) else None
  }

  function ParseSpecs(specs: seq<Bytes>): Option<seq<Tag>> {
    if specs == [] then Some([])
    else
      var first, rest := ParseTag(specs[0]), ParseSpecs(specs[1..]);
      if first.Some? && rest.Some? then Some([first.value] + rest.value) else None
  }

  predicate DistinctNames(tags: seq<Tag>) {
    forall i, j :: 0 <= i < j < |tags| ==> tags[i].name != tags[j].name
  }

  /** One final semicolon is allowed; a repeated name spoils the list. */
  function ParseTagList(text: Bytes): Option<seq<Tag>> {
    var specs := Split(text, ';');
    var last := |specs| - 1;
    var parsed := ParseSpecs(if last > 0 && TrimFws(specs[last]) == [] then specs[..last] else specs);
    if parsed.Some? && DistinctNames(parsed.value) then parsed else None
  }

  function Lookup(tags: seq<Tag>, name: Bytes): Option<Bytes> {
    if tags == [] then None
    else if tags[0].name == name then Some(tags[0].value)
    else Lookup(tags[1..], name)
  }

  /** The specification of tag b reduced to its name and equals sign. */
  function EmptySignature(spec: Bytes): Bytes {
    var eq := Find(spec, '=');
    if eq < |spec| && TrimFws(spec[..eq]) == "b" then spec[..eq + 1] else spec
  }

  function EmptySignatures(specs: seq<Bytes>): seq<Bytes> {
    if specs == [] then [] else [EmptySignature(specs[0])] + EmptySignatures(specs[1..])
  }

  /** The raw field with the value of tag b deleted. */
  function DeleteSignature(text: Bytes): Bytes {
    Join(EmptySignatures(Split(text, ';')), [';'])
  }

  // ----- writing tag lists the way the signer does -----

  function Text(tag: Tag): Bytes { tag.name + ['='] + tag.value }

  function Tokens(tags: seq<Tag>): (r: seq<Bytes>)
    ensures |r| == |tags|
  {
    if tags == [] then []
    else [Text(tags[0]) + (if |tags| > 1 then [';'] else [])] + Tokens(tags[1..])
  }

  function Emptied(tag: Tag): Tag { if tag.name == "b" then Tag("b", []) else tag }

  /** Tags apart by semicolon and space, none at the end. */
  function Rendered(tags: seq<Tag>): Bytes { Join(Tokens(tags), SP) }

  /** A tag whose value holds no whitespace. */
  predicate Compact(tag: Tag) {
    ValidName(tag.name) && forall b :: b in tag.value ==> IsValueByte(b)
  }

  predicate AllCompact(tags: seq<Tag>) { forall i :: 0 <= i < |tags| ==> Compact(tags[i]) }

  predicate Blank(s: Bytes) { forall i :: 0 <= i < |s| ==> IsFws(s[i]) }

  lemma {:induction false} TrimBlank(lead: Bytes, s: Bytes)
    requires Blank(lead) && (s == [] || !IsFws(s[0])) && (s == [] || !IsFws(s[|s| - 1]))
    ensures TrimFws(lead + s) == s
  {
    if lead == [] {
      assert lead + s == s;
    } else {
      TrimBlank(lead[1..], s);
      assert (lead + s)[1..] == lead[1..] + s;
    }
  }

  lemma SpecParts(lead: Bytes, tag: Tag)
    requires Blank(lead) && ValidName(tag.name)
    ensures var spec, eq := lead + Text(tag), |lead| + |tag.name|;
            && Find(spec, '=') == eq < |spec|
            && spec[..eq] == lead + tag.name && spec[eq + 1..] == tag.value
            && TrimFws(spec[..eq]) == tag.name
  {
    var spec, eq := lead + Text(tag), |lead| + |tag.name|;
    assert spec == (lead + tag.name) + ['='] + tag.value;
    assert IsNameByte(tag.name[0]) && IsNameByte(tag.name[|tag.name| - 1]);
    FindIn(lead + tag.name, '=', tag.value);
    TrimBlank(lead, tag.name);
    assert spec[..eq] == lead + tag.name;
  }

  /** A compact tag is read back whatever whitespace precedes it. */
  lemma SpecReads(lead: Bytes, tag: Tag)
    requires Blank(lead) && Compact(tag)
    ensures ParseTag(lead + Text(tag)) == Some(tag)
  {
    SpecParts(lead, tag);
    NothingToTrim(tag);
  }

  lemma NothingToTrim(tag: Tag)
    requires Compact(tag)
    ensures TrimFws(tag.value) == tag.value && ValidValue(tag.value)
  {
    assert tag.value != [] ==> IsValueByte(tag.value[0]) && IsValueByte(tag.value[|tag.value| - 1]);
  }

  lemma SpecEmptied(lead: Bytes, tag: Tag)
    requires Blank(lead) && Compact(tag)
    ensures EmptySignature(lead + Text(tag)) == lead + Text(Emptied(tag))
  {
    SpecParts(lead, tag);
    if tag.name == "b" {
      assert (lead + Text(tag))[..|lead| + 2] == lead + Text(Tag("b", []));
    }
  }

  lemma SpecIsOnePiece(lead: Bytes, tag: Tag)
    requires Blank(lead) && Compact(tag)
    ensures ';' !in lead + Text(tag)
  {
    assert ';' !in tag.name && ';' !in tag.value;
  }

  lemma TrimmedSpecNotEmpty(lead: Bytes, tag: Tag)
    requires Blank(lead) && Compact(tag)
    ensures TrimFws(lead + Text(tag)) != []
  {
    assert IsNameByte(tag.name[0]);
    var last := Text(tag)[|Text(tag)| - 1];
    assert last == if tag.value == [] then '=' else tag.value[|tag.value| - 1];
    assert tag.value != [] ==> IsValueByte(tag.value[|tag.value| - 1]);
    TrimBlank(lead, Text(tag));
  }

  // ----- folded fields -----

  /** The column after the first tag, and the separator then written. */
  function Column(tags: seq<Tag>, column: nat): nat
    requires tags != []
  {
    NextColumn(column, Tokens(tags)[0])
  }

  function Lead(tags: seq<Tag>, column: nat): Bytes
    requires |tags| > 1
  {
    FoldSeparator(Column(tags, column), Tokens(tags)[1])
  }

  /** The specifications of a folded field: `lead` before the first tag, the
      folding separators before the others. */
  function FoldedSpecs(lead: Bytes, tags: seq<Tag>, column: nat): (r: seq<Bytes>)
    ensures |r| == |tags|
    decreases |tags|
  {
    if tags == [] then []
    else
      [lead + Text(tags[0])]
      + (if |tags| == 1 then []
         else FoldedSpecs(Lead(tags, column), tags[1..], Column(tags, column)))
  }

  /** The folded text of `tags` with `lead` in place of the first separator. */
  function FoldedFrom(lead: Bytes, tags: seq<Tag>, column: nat): Bytes
    requires tags != []
  {
    lead + (Tokens(tags)[0] + FoldTokens(Tokens(tags[1..]), Column(tags, column)))
  }

  lemma TokensTail(tags: seq<Tag>)
    requires tags != []
    ensures Tokens(tags)[1..] == Tokens(tags[1..])
    ensures AllCompact(tags) ==> AllCompact(tags[1..])
  {
  }

  lemma FoldedFromTail(lead: Bytes, tags: seq<Tag>, column: nat)
    requires |tags| > 1
    ensures FoldedFrom(lead, tags, column)
         == lead + Text(tags[0]) + [';'] + FoldedFrom(Lead(tags, column), tags[1..], Column(tags, column))
  {
    TokensTail(tags);
    TokensTail(tags[1..]);
    var rest := FoldTokens(Tokens(tags[1..]), Column(tags, column));
    assert rest == FoldedFrom(Lead(tags, column), tags[1..], Column(tags, column));
    ConcatAssoc(lead, Text(tags[0]) + [';'], rest);
    ConcatAssoc(lead, Text(tags[0]), [';']);
  }

  lemma {:induction false} FoldedSplits(lead: Bytes, tags: seq<Tag>, column: nat)
    requires Blank(lead) && tags != [] && AllCompact(tags)
    ensures Split(FoldedFrom(lead, tags, column), ';') == FoldedSpecs(lead, tags, column)
    decreases |tags|
  {
    TokensTail(tags);
    SpecIsOnePiece(lead, tags[0]);
    var first := lead + Text(tags[0]);
    if |tags| == 1 {
      SplitFirst(first, [], ';');
      assert FoldedFrom(lead, tags, column) == first;
    } else {
      var next, sep := Column(tags, column), Lead(tags, column);
      FoldedFromTail(lead, tags, column);
      FoldedSplits(sep, tags[1..], next);
      SplitFirst(first, FoldedFrom(sep, tags[1..], next), ';');
    }
  }

  lemma {:induction false} FoldedParses(lead: Bytes, tags: seq<Tag>, column: nat)
    requires Blank(lead) && AllCompact(tags)
    ensures ParseSpecs(FoldedSpecs(lead, tags, column)) == Some(tags)
    ensures forall spec :: spec in FoldedSpecs(lead, tags, column) ==> TrimFws(spec) != []
    decreases |tags|
  {
    if tags != [] {
      TokensTail(tags);
      SpecReads(lead, tags[0]);
      TrimmedSpecNotEmpty(lead, tags[0]);
      assert [tags[0]] + tags[1..] == tags;
      if |tags| > 1 {
        var next, sep := Column(tags, column), Lead(tags, column);
        FoldedParses(sep, tags[1..], next);
        var specs := FoldedSpecs(lead, tags, column);
        assert specs[1..] == FoldedSpecs(sep, tags[1..], next);
      }
    }
  }

  lemma FoldIsFoldedFrom(tags: seq<Tag>)
    requires tags != [] && AllCompact(tags)
    ensures Fold(Rendered(tags)) == FoldedFrom([], tags, 0)
    ensures Rendered(tags) == Plain(Tokens(tags), false)
  {
    TokensTail(tags);
    TokensNotEmpty(tags);
    SplitJoin(Tokens(tags), ' ');
    PlainOfTokens(Tokens(tags));
    assert Tokens(tags) == [Tokens(tags)[0]] + Tokens(tags[1..]);
  }

  lemma {:induction false} TokensNotEmpty(tags: seq<Tag>)
    requires AllCompact(tags)
    ensures forall t :: t in Tokens(tags) ==> t != [] && ' ' !in t
  {
    if tags != [] {
      TokensTail(tags);
      TokensNotEmpty(tags[1..]);
      var text := Text(tags[0]);
      assert Compact(tags[0]);
      assert ' ' !in tags[0].name && ' ' !in tags[0].value;
    }
  }

  lemma {:induction false} PlainOfTokens(tokens: seq<Bytes>)
    requires forall t :: t in tokens ==> t != []
    ensures Plain(tokens, false) == Join(tokens, SP)
    ensures tokens != [] ==> Plain(tokens, true) == SP + Join(tokens, SP)
  {
    if tokens != [] {
      assert tokens[0] in tokens && forall t :: t in tokens[1..] ==> t in tokens;
      PlainOfTokens(tokens[1..]);
      if |tokens| > 1 {
        ConcatAssoc(tokens[0], SP, Join(tokens[1..], SP));
      } else {
        assert tokens[0] + [] == tokens[0];
      }
      var join := Join(tokens, SP);
      assert [] + join == join;
    }
  }

  /** A verifier reads back exactly the tags of a folded field, after any
      whitespace the mail system puts before it. */
  lemma TagListRoundTrip(lead: Bytes, tags: seq<Tag>)
    requires Blank(lead) && tags != [] && AllCompact(tags) && DistinctNames(tags)
    ensures ParseTagList(lead + Fold(Rendered(tags))) == Some(tags)
  {
    FoldIsFoldedFrom(tags);
    FoldedFromLead(lead, tags);
    FoldedSplits(lead, tags, 0);
    FoldedParses(lead, tags, 0);
  }

  lemma FoldedFromLead(lead: Bytes, tags: seq<Tag>)
    requires tags != []
    ensures lead + FoldedFrom([], tags, 0) == FoldedFrom(lead, tags, 0)
  {
    var rest := Tokens(tags)[0] + FoldTokens(Tokens(tags[1..]), Column(tags, 0));
    assert [] + rest == rest;
  }

  // ----- deleting the signature -----

  function EmptiedAll(tags: seq<Tag>): (r: seq<Tag>)
    ensures |r| == |tags|
  {
    if tags == [] then [] else [Emptied(tags[0])] + EmptiedAll(tags[1..])
  }

  function Deleted(lead: Bytes, tags: seq<Tag>, column: nat): Bytes {
    Join(EmptySignatures(FoldedSpecs(lead, tags, column)), [';'])
  }

  function DeletedRest(tags: seq<Tag>, column: nat): Bytes
    requires tags != []
  {
    if |tags| == 1 then [] else Deleted(Lead(tags, column), tags[1..], Column(tags, column))
  }

  lemma DeletedStep(lead: Bytes, tags: seq<Tag>, column: nat)
    requires Blank(lead) && tags != [] && AllCompact(tags)
    ensures Deleted(lead, tags, column) == lead + (Tokens(EmptiedAll(tags))[0] + DeletedRest(tags, column))
  {
    SpecEmptied(lead, tags[0]);
    var specs, text := FoldedSpecs(lead, tags, column), Text(Emptied(tags[0]));
    var first := Tokens(EmptiedAll(tags))[0];
    if |tags| == 1 {
      assert specs == [lead + Text(tags[0])];
      assert EmptySignatures(specs) == [lead + text];
      assert first == text && first + [] == first;
    } else {
      var rest := FoldedSpecs(Lead(tags, column), tags[1..], Column(tags, column));
      assert specs[1..] == rest;
      JoinEmptied(lead + text, rest);
      assert first == text + [';'];
      ConcatAssoc(lead, text, [';']);
      ConcatAssoc(lead, first, DeletedRest(tags, column));
    }
  }

  lemma JoinEmptied(first: Bytes, specs: seq<Bytes>)
    requires specs != []
    ensures Join([first] + EmptySignatures(specs), [';'])
         == first + [';'] + Join(EmptySignatures(specs), [';'])
  {
    assert ([first] + EmptySignatures(specs))[1..] == EmptySignatures(specs);
  }

  lemma {:induction false} DeletedRelaxesSame(tags: seq<Tag>, column: nat)
    requires tags != [] && AllCompact(tags)
    ensures SameRelaxed(DeletedRest(tags, column), Plain(Tokens(EmptiedAll(tags)[1..]), true))
    decreases |tags|
  {
    if |tags| > 1 {
      TokensTail(tags);
      var sep, rest, next := Lead(tags, column), tags[1..], Column(tags, column);
      assert Tokens(tags)[0] != [] && (sep == SP || sep == CRLFTAB);
      DeletedStep(sep, rest, next);
      DeletedRelaxesSame(rest, next);
      var emptied := EmptiedAll(rest);
      assert EmptiedAll(tags)[1..] == emptied;
      TokensTail(emptied);
      var first, a, b := Tokens(emptied)[0], DeletedRest(rest, next), Plain(Tokens(emptied[1..]), true);
      SameRelaxedAfter(first, a, b);
      SeparatorsAlike(sep, first + a, first + b);
    }
  }

  lemma {:induction false} BlankLeadRelaxes(lead: Bytes, s: Bytes, pending: bool)
    requires Blank(lead)
    ensures RelaxFrom(lead + s, false, pending) == RelaxFrom(s, false, false)
  {
    if lead == [] {
      assert lead + s == s;
      if pending { PendingBeforeText(s); }
    } else {
      assert (lead + s)[1..] == lead[1..] + s;
      BlankLeadRelaxes(lead[1..], s, true);
    }
  }

  /** With the signature deleted, the folded field canonicalizes to the field the
      signer wrote before it had a signature. */
  lemma DeletionUndoesSigning(lead: Bytes, tags: seq<Tag>)
    requires Blank(lead) && tags != [] && AllCompact(tags)
    ensures Relaxed(DeleteSignature(lead + Fold(Rendered(tags)))) == Relaxed(Rendered(EmptiedAll(tags)))
  {
    FoldIsFoldedFrom(tags);
    FoldedFromLead(lead, tags);
    FoldedSplits(lead, tags, 0);
    EmptiedCompact(tags);
    FoldIsFoldedFrom(EmptiedAll(tags));
    DeletedStep(lead, tags, 0);
    DeletedRelaxesSame(tags, 0);
    var emptied := EmptiedAll(tags);
    TokensTail(emptied);
    var first, a, b := Tokens(emptied)[0], DeletedRest(tags, 0), Plain(Tokens(emptied[1..]), true);
    SameRelaxedAfter(first, a, b);
    BlankLeadRelaxes(lead, first + a, false);
    assert [] + (first + b) == first + b;
  }

  lemma {:induction false} EmptiedCompact(tags: seq<Tag>)
    requires AllCompact(tags)
    ensures AllCompact(EmptiedAll(tags))
  {
    if tags != [] {
      TokensTail(tags);
      EmptiedCompact(tags[1..]);
    }
  }
}
