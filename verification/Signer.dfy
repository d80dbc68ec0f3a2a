/** Header selection and signing (src/dkim.rs, sign). Hashing and RSA are
    parameters; the bytes given to them are what this module determines. */
module Signers {
  import opened ByteStrings
  import opened HeaderCanonicalizers
  import opened Foldings
  import opened Configs
  import Base64
  import Mailboxes

  datatype Header = Header(name: Bytes, value: Bytes)

  predicate IsHeaderName(name: Bytes) {
    0 < |name| <= 998 && forall b :: b in name ==> IsAlnum(b) || b == '-'
  }

  function NewHeader(name: Bytes, value: Bytes): Option<Header> {
    if IsHeaderName(name) && '\0' !in value then Some(Header(name, value)) else None
  }

  predicate Is(h: Header, name: Bytes) { LowerAll(h.name) == LowerAll(name) }

  const SIGNED_HEADERS: seq<Bytes> := [
    "from", "sender", "reply-to", "subject", "date", "message-id", "to", "cc", "mime-version",
    "content-type", "content-transfer-encoding", "in-reply-to", "references"]

  datatype SignError = NotOneFrom | NoFromDomain | DomainMismatch | SignerFailed

  datatype Crypto = Crypto(
    sha256: Bytes -> Octets,
    sign: (Bytes, Bytes) -> Option<Octets>,
    verify: (Bytes, Bytes, Octets) -> bool)

  function Instances(headers: seq<Header>, name: Bytes): seq<Header> {
    if headers == [] then []
    else (if Is(headers[0], name) then [headers[0]] else []) + Instances(headers[1..], name)
  }

  /** The instance nearest the end of the header block. */
  function LastInstance(headers: seq<Header>, name: Bytes): Option<Header> {
    if headers == [] then None
    else if Is(headers[|headers| - 1], name) then Some(headers[|headers| - 1])
    else LastInstance(headers[..|headers| - 1], name)
  }

  function Selected(names: seq<Bytes>, headers: seq<Header>): seq<Header> {
    if names == [] then []
    else
      var last := LastInstance(headers, names[0]);
      (if last.Some? then [last.value] else []) + Selected(names[1..], headers)
  }

  /** From appears once more than it is selected. */
  function NamesFor(name: Bytes, found: bool): seq<Bytes> {
    (if found then [name] else []) + (if name == "from" then ["from"] else [])
  }

  function SignedNames(names: seq<Bytes>, headers: seq<Header>): seq<Bytes> {
    if names == [] then []
    else NamesFor(names[0], LastInstance(headers, names[0]).Some?) + SignedNames(names[1..], headers)
  }

  function CanonicalHeaders(headers: seq<Header>): Bytes {
    if headers == [] then []
    else RelaxedHeader(headers[0].name, headers[0].value) + CanonicalHeaders(headers[1..])
  }

  /** The signature field itself goes last and without its line end. */
  function CanonicalSignature(value: Bytes): Bytes { LowerAll("DKIM-Signature") + [':'] + Relaxed(value) }

  function UnsignedValue(config: Config, names: seq<Bytes>, time: nat, bodyHash: Octets): Bytes {
    "v=1; a=rsa-sha256; c=relaxed/relaxed; d=" + config.domain
    + "; s=" + config.selector
    + "; t=" + Decimal(time)
    + "; h=" + Join(names, [':'])
    + "; bh=" + Base64.Encode(bodyHash)
    + "; b="
  }

  /** The bytes the signature is computed over. */
  function HashInput(config: Config, headers: seq<Header>, time: nat, bodyHash: Octets): Bytes {
    CanonicalHeaders(Selected(SIGNED_HEADERS, headers))
    + CanonicalSignature(UnsignedValue(config, SignedNames(SIGNED_HEADERS, headers), time, bodyHash))
  }

  /** What must hold of the headers before anything is signed. */
  function Eligible(config: Config, headers: seq<Header>): Option<SignError> {
    var from := Instances(headers, "from");
    if |from| != 1 then Some(NotOneFrom)
    else
      var domain := Mailboxes.DomainOf(from[0].value);
      if domain.None? then Some(NoFromDomain)
      else if LowerAll(domain.value) != LowerAll(config.domain) then Some(DomainMismatch)
      else None
  }

  function SignedField(config: Config, headers: seq<Header>, bodyHash: Octets, time: nat, crypto: Crypto)
    : Result<Bytes, SignError>
  {
    var problem := Eligible(config, headers);
    if problem.Some? then Err(problem.value)
    else
      var signature := crypto.sign(config.key, HashInput(config, headers, time, bodyHash));
      if signature.None? then Err(SignerFailed)
      else
        Ok(Fold(UnsignedValue(config, SignedNames(SIGNED_HEADERS, headers), time, bodyHash)
                + Base64.Encode(signature.value)))
  }

  // ----- the program -----

  method FindLast(headers: seq<Header>, name: Bytes) returns (found: Option<Header>)
    ensures found == LastInstance(headers, name)
  {
    var i := |headers|;
    assert headers[..i] == headers;
    while i > 0
      invariant 0 <= i <= |headers|
      invariant LastInstance(headers[..i], name) == LastInstance(headers, name)
    {
      i := i - 1;
      assert headers[..i + 1][..i] == headers[..i];
      if Is(headers[i], name) {
        return Some(headers[i]);
      }
    }
    return None;
  }

  method CanonicalizeSignatureHeader(value: Bytes) returns (canonical: Bytes)
    ensures canonical == CanonicalSignature(value)
  {
    canonical := CanonicalizeHeader("DKIM-Signature", value);
    canonical := canonical[..|canonical| - 2];
  }

  lemma SelectionStep(names: seq<Bytes>, i: nat, headers: seq<Header>)
    requires i < |names|
    ensures var last := LastInstance(headers, names[i]);
            && Selected(names[i..], headers)
               == (if last.Some? then [last.value] else []) + Selected(names[i + 1..], headers)
            && SignedNames(names[i..], headers)
               == NamesFor(names[i], last.Some?) + SignedNames(names[i + 1..], headers)
  {
    assert names[i..][1..] == names[i + 1..];
  }

  method SelectHeaders(wanted: seq<Bytes>, headers: seq<Header>)
    returns (selected: seq<Header>, names: seq<Bytes>)
    ensures selected == Selected(wanted, headers)
    ensures names == SignedNames(wanted, headers)
  {
    selected, names := [], [];
    for i := 0 to |wanted|
      invariant selected + Selected(wanted[i..], headers) == Selected(wanted, headers)
      invariant names + SignedNames(wanted[i..], headers) == SignedNames(wanted, headers)
    {
      var name := wanted[i];
      var header := FindLast(headers, name);
      ghost var first := if header.Some? then [header.value] else [];
      ghost var selectedNow, namesNow := selected + first, names + NamesFor(name, header.Some?);
      SelectionStep(wanted, i, headers);
      ConcatAssoc(selected, first, Selected(wanted[i + 1..], headers));
      ConcatAssoc(names, NamesFor(name, header.Some?), SignedNames(wanted[i + 1..], headers));
      if header.Some? {
        selected := selected + [header.value];
        names := names + [name];
      }
      if name == "from" {
        names := names + ["from"];
      }
      assert selected == selectedNow && names == namesNow;
    }
  }

  method CanonicalizeSelected(selected: seq<Header>) returns (bytes: Bytes)
    ensures bytes == CanonicalHeaders(selected)
  {
    bytes := [];
    for i := 0 to |selected|
      invariant bytes + CanonicalHeaders(selected[i..]) == CanonicalHeaders(selected)
    {
      assert selected[i..][1..] == selected[i + 1..];
      var canonical := CanonicalizeHeader(selected[i].name, selected[i].value);
      bytes := bytes + canonical;
    }
  }

  method Sign(config: Config, headers: seq<Header>, bodyHash: Octets, time: nat, crypto: Crypto)
    returns (field: Result<Bytes, SignError>)
    ensures field == SignedField(config, headers, bodyHash, time, crypto)
  {
    var from := Instances(headers, "from");
    if |from| != 1 {
      return Err(NotOneFrom);
    }
    var domain := Mailboxes.FromDomain(from[0].value);
    if domain.None? {
      return Err(NoFromDomain);
    }
    if LowerAll(domain.value) != LowerAll(config.domain) {
      return Err(DomainMismatch);
    }
    var selected, names := SelectHeaders(SIGNED_HEADERS, headers);
    var unsigned := UnsignedValue(config, names, time, bodyHash);
    var hashed := CanonicalizeSelected(selected);
    var last := CanonicalizeSignatureHeader(unsigned);
    hashed := hashed + last;
    var signature := crypto.sign(config.key, hashed);
    if signature.None? {
      return Err(SignerFailed);
    }
    var value := FoldSignature(unsigned + Base64.Encode(signature.value));
    return Ok(value);
  }
}
