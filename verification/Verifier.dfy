/** A verifier by sections 3.2, 3.7, 5.4.2 and 6.1 of RFC 6376, and what it makes
    of the signer's output. */
module Verifiers {
  import opened ByteStrings
  import opened HeaderCanonicalizers
  import opened TagLists
  import opened Configs
  import opened Signers
  import opened RelaxedBodies
  import Base64

  // ----- the verifier -----

  function LastIndex(headers: seq<Header>, name: Bytes): (i: int)
    ensures -1 <= i < |headers|
    ensures i >= 0 ==> Is(headers[i], name)
  {
    if headers == [] then -1
    else if Is(headers[|headers| - 1], name) then |headers| - 1
    else LastIndex(headers[..|headers| - 1], name)
  }

  function Remove(headers: seq<Header>, i: nat): seq<Header>
    requires i < |headers|
  {
    headers[..i] + headers[i + 1..]
  }

  function StandardHeader(name: Bytes, value: Bytes): Bytes {
    LowerAll(name) + [':'] + StandardRelaxed(value) + CRLF
  }

  /** Each name takes the lowest instance not taken yet; one that finds no
      instance contributes nothing (section 5.4.2). */
  function HeadersByName(names: seq<Bytes>, headers: seq<Header>): Bytes {
    if names == [] then []
    else
      var i := LastIndex(headers, names[0]);
      if i < 0 then HeadersByName(names[1..], headers)
      else
        StandardHeader(headers[i].name, headers[i].value)
        + HeadersByName(names[1..], Remove(headers, i))
  }

  /** The names in an h= value. */
  function NamesIn(value: Bytes): seq<Bytes> { Split(value, ':') }

  /** What a verifier hashes for the signature field at position `k`. */
  function Rebuilt(message: seq<Header>, k: nat, names: seq<Bytes>): Bytes
    requires k < |message|
  {
    HeadersByName(names, message)
    + (LowerAll(message[k].name) + [':'] + StandardRelaxed(DeleteSignature(message[k].value)))
  }

  datatype Claim = Claim(domain: Bytes, selector: Bytes, names: seq<Bytes>, bodyHash: Bytes, signature: Bytes)

  /** The tags a verifier of this algorithm and canonicalization needs. */
  function ReadClaim(field: Bytes): Option<Claim> {
    var parsed := ParseTagList(field);
    if parsed.None? then None
    else
      var tags := parsed.value;
      if Lookup(tags, "v") != Some("1") || Lookup(tags, "a") != Some("rsa-sha256")
         || Lookup(tags, "c") != Some("relaxed/relaxed") then None
      else
        match (Lookup(tags, "d"), Lookup(tags, "s"), Lookup(tags, "h"), Lookup(tags, "bh"), Lookup(tags, "b"))
        case (Some(d), Some(s), Some(h), Some(bh), Some(b)) => Some(Claim(d, s, NamesIn(h), bh, b))
        case _ => None
  }

  /** `keyFor` gives the public key published for a domain and selector. */
  predicate Verifies(message: seq<Header>, k: nat, body: Bytes, crypto: Crypto, keyFor: (Bytes, Bytes) -> Bytes)
    requires k < |message|
  {
    var claim := ReadClaim(message[k].value);
    && claim.Some?
    && "from" in claim.value.names
    && Base64.Decode(claim.value.bodyHash) == Some(crypto.sha256(RelaxedBody(body)))
    && var signature := Base64.Decode(claim.value.signature);
       && signature.Some? && IsOctets(signature.value)
       && crypto.verify(keyFor(claim.value.domain, claim.value.selector),
                        Rebuilt(message, k, claim.value.names), signature.value)
  }

  // ----- the signer's field as a tag list -----

  function SignatureTags(config: Config, names: seq<Bytes>, time: nat, bodyHash: Octets, b: Bytes): seq<Tag> {
    [Tag("v", "1"), Tag("a", "rsa-sha256"), Tag("c", "relaxed/relaxed"),
     Tag("d", config.domain), Tag("s", config.selector), Tag("t", Decimal(time)),
     Tag("h", Join(names, [':'])), Tag("bh", Base64.Encode(bodyHash)), Tag("b", b)]
  }

  lemma RenderedCons(tags: seq<Tag>, i: nat)
    requires i + 1 < |tags|
    ensures Rendered(tags[i..]) == Text(tags[i]) + ("; " + Rendered(tags[i + 1..]))
  {
    var here, rest := tags[i..], tags[i + 1..];
    assert here[1..] == rest;
    TokensTail(here);
    ConcatAssoc(Text(tags[i]), [';'], SP + Rendered(rest));
    ConcatAssoc(Text(tags[i]) + [';'], SP, Rendered(rest));
    assert [';'] + (SP + Rendered(rest)) == "; " + Rendered(rest);
  }

  /** The text from the separator before tag `i` on. */
  function Rest(tags: seq<Tag>, i: nat): Bytes
    requires i < |tags|
  {
    "; " + Rendered(tags[i..])
  }

  lemma RestStep(tags: seq<Tag>, i: nat, lead: Bytes)
    requires i < |tags| && lead == "; " + tags[i].name + ['=']
    ensures Rest(tags, i) == lead + (tags[i].value + if i + 1 < |tags| then Rest(tags, i + 1) else [])
  {
    var tail := if i + 1 < |tags| then Rest(tags, i + 1) else [];
    RenderedFrom(tags, i, tail);
    LeadRegroups(tags[i].name, tags[i].value, tail);
  }

  lemma RenderedFrom(tags: seq<Tag>, i: nat, tail: Bytes)
    requires i < |tags| && tail == if i + 1 < |tags| then Rest(tags, i + 1) else []
    ensures Rendered(tags[i..]) == Text(tags[i]) + tail
  {
    if i + 1 < |tags| {
      RenderedCons(tags, i);
    } else {
      assert tags[i..] == [tags[i]];
      assert Text(tags[i]) + [] == Text(tags[i]);
    }
  }

  lemma LeadRegroups(name: Bytes, value: Bytes, tail: Bytes)
    ensures "; " + (name + ['='] + value + tail) == "; " + name + ['='] + (value + tail)
  {
  }

  lemma Peel(front: Bytes, tags: seq<Tag>, i: nat, lead: Bytes)
    requires i + 1 < |tags| && lead == "; " + tags[i].name + ['=']
    ensures front + lead + tags[i].value + Rest(tags, i + 1) == front + Rest(tags, i)
  {
    RestStep(tags, i, lead);
    ConcatAssoc(front + lead, tags[i].value, Rest(tags, i + 1));
    ConcatAssoc(front, lead, tags[i].value + Rest(tags, i + 1));
  }

  /** The field the signer formats is the rendering of its tags. */
  lemma UnsignedIsRendered(config: Config, names: seq<Bytes>, time: nat, bodyHash: Octets, b: Bytes)
    ensures UnsignedValue(config, names, time, bodyHash) + b
         == Rendered(SignatureTags(config, names, time, bodyHash, b))
  {
    var tags := SignatureTags(config, names, time, bodyHash, b);
    var f4 := PREFIX + config.domain;
    PrefixRendered(tags);
    TailRendered(tags, f4, config.selector, Decimal(time), Join(names, [':']), Base64.Encode(bodyHash), b);
  }

  lemma TailRendered(tags: seq<Tag>, f4: Bytes, s: Bytes, t: Bytes, h: Bytes, bh: Bytes, b: Bytes)
    requires |tags| == 9
    requires tags[4..] == [Tag("s", s), Tag("t", t), Tag("h", h), Tag("bh", bh), Tag("b", b)]
    ensures f4 + "; s=" + s + "; t=" + t + "; h=" + h + "; bh=" + bh + "; b=" + b == f4 + Rest(tags, 4)
  {
    assert tags[4] == tags[4..][0] && tags[5] == tags[4..][1] && tags[6] == tags[4..][2]
        && tags[7] == tags[4..][3] && tags[8] == tags[4..][4];
    var f5 := f4 + "; s=" + s;
    var f6 := f5 + "; t=" + t;
    var f7 := f6 + "; h=" + h;
    var f8 := f7 + "; bh=" + bh;
    RestStep(tags, 8, "; b=");
    ConcatAssoc(f8, "; b=", b);
    assert b + [] == b;
    Peel(f7, tags, 7, "; bh=");
    Peel(f6, tags, 6, "; h=");
    Peel(f5, tags, 5, "; t=");
    Peel(f4, tags, 4, "; s=");
  }

  const PREFIX: Bytes := "v=1; a=rsa-sha256; c=relaxed/relaxed; d="

  lemma PrefixLiteral()
    ensures "v=1" + "; a=" + "rsa-sha256" + "; c=" + "relaxed/relaxed" + "; d=" == PREFIX
  {
    PrefixStart();
    PrefixMiddle();
  }

  lemma PrefixStart()
    ensures "v=1" + "; a=" + "rsa-sha256" == "v=1; a=rsa-sha256"
  {
  }

  lemma PrefixMiddle()
    ensures "v=1; a=rsa-sha256" + "; c=" + "relaxed/relaxed" == "v=1; a=rsa-sha256; c=relaxed/relaxed"
  {
  }

  lemma PeelThree(front: Bytes, tags: seq<Tag>, a: Bytes, b: Bytes, c: Bytes)
    requires |tags| > 4
    requires a == "; " + tags[1].name + ['='] && b == "; " + tags[2].name + ['='] && c == "; " + tags[3].name + ['=']
    ensures front + a + tags[1].value + b + tags[2].value + c + tags[3].value + Rest(tags, 4)
         == front + Rest(tags, 1)
  {
    var two := front + a + tags[1].value;
    Peel(front, tags, 1, a);
    Peel(two, tags, 2, b);
    Peel(two + b + tags[2].value, tags, 3, c);
  }

  lemma PrefixRendered(tags: seq<Tag>)
    requires |tags| > 4 && tags[0] == Tag("v", "1") && tags[1] == Tag("a", "rsa-sha256")
    requires tags[2] == Tag("c", "relaxed/relaxed") && tags[3].name == "d"
    ensures Rendered(tags) == PREFIX + tags[3].value + Rest(tags, 4)
  {
    assert tags[0..] == tags;
    RenderedFrom(tags, 0, Rest(tags, 1));
    FirstText(tags[0]);
    LeadsAre();
    PeelThree("v=1", tags, "; a=", "; c=", "; d=");
    PrefixLiteral();
  }

  lemma FirstText(tag: Tag)
    requires tag == Tag("v", "1")
    ensures Text(tag) == "v=1"
  {
  }

  lemma LeadsAre()
    ensures "; " + "a" + ['='] == "; a=" && "; " + "c" + ['='] == "; c=" && "; " + "d" + ['='] == "; d="
  {
  }
}
