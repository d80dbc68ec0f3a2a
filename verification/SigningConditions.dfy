/** When a message gets a signature, from the header list up to a whole run. */
module SigningConditions {
  import opened ByteStrings
  import opened BodyCanonicalizers
  import opened Configs
  import opened FlagWords
  import opened Signers
  import opened Milter
  import opened MilterHistory
  import opened MilterProperties
  import Mailboxes
  import opened MailboxProperties
  import opened FromFields
  import opened MailboxForms

  lemma LowerTwice(s: Bytes)
    ensures LowerAll(LowerAll(s)) == LowerAll(s)
  {
  }

  lemma LoadedIsLower(c: Config)
    requires Loaded(c)
    ensures LowerAll(c.domain) == c.domain
  {
    LowerTwice(TrimDots(c.domain));
  }

  lemma DomainIsLower(value: Bytes, d: Bytes)
    requires Mailboxes.DomainOf(value) == Some(d)
    ensures LowerAll(d) == d
  {
    var text := Mailboxes.Trim(Mailboxes.WithoutComments(Mailboxes.Unfolded(value).value).value);
    TextDomainIsLower(text, d);
  }

  lemma TextDomainIsLower(text: Bytes, d: Bytes)
    requires Mailboxes.MailboxDomain(text) == Some(d)
    ensures LowerAll(d) == d
  {
    var angles := Mailboxes.AnglesFrom(text, 0, Mailboxes.CLOSED, Mailboxes.NO_ANGLES).value;
    if angles.end.Some? {
      AddressDomainIsLower(Mailboxes.Trim(text[angles.start.value + 1..angles.end.value]), d);
    } else {
      AddressDomainIsLower(text, d);
    }
  }

  lemma AddressDomainIsLower(address: Bytes, d: Bytes)
    requires Mailboxes.AddressDomain(address) == Some(d)
    ensures LowerAll(d) == d
  {
    var at := Mailboxes.SeparatorFrom(address, 0, Mailboxes.CLOSED, Mailboxes.Unseen).value.index;
    LowerTwice(TrimDots(Mailboxes.Trim(address[at + 1..])));
  }

  /** A field is signed exactly when there is one From, its domain is the
      configured one, and the key can sign what is to be signed. */
  lemma SignsExactlyWhen(config: Config, headers: seq<Header>, bodyHash: Octets, time: nat, crypto: Crypto)
    requires Loaded(config)
    ensures SignedField(config, headers, bodyHash, time, crypto).Ok?
       <==> && |Instances(headers, "from")| == 1
            && Mailboxes.DomainOf(Instances(headers, "from")[0].value) == Some(config.domain)
            && crypto.sign(config.key, HashInput(config, headers, time, bodyHash)).Some?
  {
    LoadedIsLower(config);
    var from := Instances(headers, "from");
    if |from| == 1 {
      var d := Mailboxes.DomainOf(from[0].value);
      if d.Some? {
        DomainIsLower(from[0].value, d.value);
      }
    }
  }

  /** And each reason for not signing is given exactly where it is the reason. */
  lemma FailsExactlyWhen(config: Config, headers: seq<Header>, bodyHash: Octets, time: nat, crypto: Crypto)
    requires Loaded(config)
    ensures var result, from := SignedField(config, headers, bodyHash, time, crypto), Instances(headers, "from");
      && (result == Err(NotOneFrom) <==> |from| != 1)
      && (result == Err(NoFromDomain) <==> |from| == 1 && Mailboxes.DomainOf(from[0].value) == None)
      && (result == Err(DomainMismatch) <==>
            |from| == 1 && Mailboxes.DomainOf(from[0].value).Some?
            && Mailboxes.DomainOf(from[0].value) != Some(config.domain))
      && (result == Err(SignerFailed) <==>
            |from| == 1 && Mailboxes.DomainOf(from[0].value) == Some(config.domain)
            && crypto.sign(config.key, HashInput(config, headers, time, bodyHash)).None?)
  {
    SignsExactlyWhen(config, headers, bodyHash, time, crypto);
    LoadedIsLower(config);
    var from := Instances(headers, "from");
    if |from| == 1 && Mailboxes.DomainOf(from[0].value).Some? {
      DomainIsLower(from[0].value, Mailboxes.DomainOf(from[0].value).value);
    }
  }

  /** The text of a From field without folds and comments. */
  function StrippedText(value: Bytes): Option<Bytes> {
    var unfolded := Mailboxes.Unfolded(value);
    if unfolded.Some? then Mailboxes.WithoutComments(unfolded.value) else None
  }

  /** The signer never vouches for an address outside its own domain: a signed
      message has one From field, with one unquoted at-sign in all, no list of
      mailboxes, and the configured domain after that sign. */
  lemma SignsOnlyOwnDomain(config: Config, headers: seq<Header>, bodyHash: Octets, time: nat, crypto: Crypto)
    requires Loaded(config) && SignedField(config, headers, bodyHash, time, crypto).Ok?
    ensures |Instances(headers, "from")| == 1
    ensures var text := StrippedText(Instances(headers, "from")[0].value);
            text.Some? && SoleMailbox(text.value, config.domain)
  {
    SignsExactlyWhen(config, headers, bodyHash, time, crypto);
    DomainIsSole(Instances(headers, "from")[0].value, config.domain);
  }

  /** And any From field that is a mailbox of its domain on one line, in any letter
      case, is signed. */
  lemma OrdinaryFromIsSigned(config: Config, headers: seq<Header>, bodyHash: Octets, time: nat, crypto: Crypto,
                             m: Mailbox)
    requires Loaded(config) && |Instances(headers, "from")| == 1
    requires ValidMailbox(m) && LowerAll(m.address.host) == config.domain
    requires OneLine(MailboxBytes(m)) && Mailboxes.Utf8(MailboxBytes(m))
    requires Instances(headers, "from")[0].value == MailboxBytes(m)
    requires crypto.sign(config.key, HashInput(config, headers, time, bodyHash)).Some?
    ensures SignedField(config, headers, bodyHash, time, crypto).Ok?
  {
    MailboxGivesDomain(m);
    SignsExactlyWhen(config, headers, bodyHash, time, crypto);
  }

  /** A field is signed exactly when there is one From, it reads as a mailbox at the
      configured domain by the grammar, and the key can sign. */
  lemma SignsExactlyMailboxes(config: Config, headers: seq<Header>, bodyHash: Octets, time: nat, crypto: Crypto)
    requires Loaded(config)
    ensures SignedField(config, headers, bodyHash, time, crypto).Ok?
       <==> && |Instances(headers, "from")| == 1
            && (exists items, m :: Reads(Instances(headers, "from")[0].value, items, m)
                                   && LowerAll(m.address.host) == config.domain)
            && crypto.sign(config.key, HashInput(config, headers, time, bodyHash)).Some?
  {
    SignsExactlyWhen(config, headers, bodyHash, time, crypto);
    if |Instances(headers, "from")| == 1 {
      FromExactly(Instances(headers, "from")[0].value, config.domain);
    }
  }

  // ----- over a run -----

  /** What the stored run says of the message that ends after `packets`. */
  function SignedAtEnd(w: World, packets: seq<Bytes>, time: nat): Result<Bytes, SignError>
    requires MessageStart(packets).Some?
  {
    SignedField(ActiveAt(w, MessageStart(packets).value), ReceivedHeaders(packets),
                w.crypto.sha256(BodyOutput(ReceivedBody(packets))), time, w.crypto)
  }

  lemma OutcomeOfGood(w: World, packets: seq<Bytes>, time: nat)
    requires MessageStart(packets).Some?
    requires HeaderError(HeaderPayloads(packets[MessageStart(packets).value..])).None?
    ensures StoredOutcome(w, packets, time).Ok?
       <==> And(Negotiation(packets).0, SUPPORTED_ACTIONS) != 0 && SignedAtEnd(w, packets, time).Ok?
  {
  }

  /** When a message may be signed: begun, every header well formed, all within
      the limits, and an action granted. */
  predicate Signable(packets: seq<Bytes>) {
    && MessageStart(packets).Some?
    && (var payloads := HeaderPayloads(packets[MessageStart(packets).value..]);
        AllGood(payloads) && |payloads| <= 1000 && TotalSize(payloads) <= 1_048_576)
    && (Bit(Negotiation(packets).0, 0) || Bit(Negotiation(packets).0, 4))
  }

  /** A message that ends is signed exactly when it may be and the signer signs it
      with the configuration of its beginning. */
  lemma MessageSignedExactlyWhen(w: World, packets: seq<Bytes>, time: nat)
    ensures StoredOutcome(w, packets, time).Ok?
       <==> Signable(packets) && SignedAtEnd(w, packets, time).Ok?
  {
    MayInsert(Negotiation(packets).0);
    if MessageStart(packets).Some? {
      var payloads := HeaderPayloads(packets[MessageStart(packets).value..]);
      HeadersInOrder(payloads);
      if HeaderError(payloads).None? {
        OutcomeOfGood(w, packets, time);
      }
    }
  }

  /** In every run, with reloads at any point, a signature names the sole domain
      of the From field that was sent. */
  lemma RunSignsOnlyOwnDomain(w: World, packets: seq<Bytes>, time: nat)
    requires AllLoaded(w) && StoredOutcome(w, packets, time).Ok?
    ensures var from := Instances(ReceivedHeaders(packets), "from");
            && |from| == 1
            && StrippedText(from[0].value).Some?
            && SoleMailbox(StrippedText(from[0].value).value, ActiveAt(w, MessageStart(packets).value).domain)
  {
    MessageSignedExactlyWhen(w, packets, time);
    var start := MessageStart(packets).value;
    ActiveIsLoaded(w, start);
    SignsOnlyOwnDomain(ActiveAt(w, start), ReceivedHeaders(packets),
                       w.crypto.sha256(BodyOutput(ReceivedBody(packets))), time, w.crypto);
  }
}
