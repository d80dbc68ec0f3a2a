/** The header packets that are taken, byte by byte. */
module HeaderPackets {
  import opened ByteStrings
  import opened Milter
  import opened MilterHistory
  import opened MilterProperties
  import opened Signers

  /** 1 to 998 letters, digits and hyphens. */
  predicate NameRule(name: Bytes) {
    && 1 <= |name| <= 998
    && forall i :: 0 <= i < |name| ==>
         'a' <= name[i] <= 'z' || 'A' <= name[i] <= 'Z' || '0' <= name[i] <= '9' || name[i] == '-'
  }

  predicate NulFree(s: Bytes) { forall i :: 0 <= i < |s| ==> s[i] != '\0' }

  function HeaderPacket(name: Bytes, value: Bytes): Bytes { name + ['\0'] + value + ['\0'] }

  lemma NameRuleExactly(name: Bytes)
    ensures NameRule(name) <==> IsHeaderName(name)
  {
    assert IsHeaderName(name) ==> forall i :: 0 <= i < |name| ==> name[i] in name;
  }

  lemma PacketParses(name: Bytes, value: Bytes)
    requires NulFree(name) && NulFree(value)
    ensures ParseHeader(HeaderPacket(name, value)) == Ok(Header(name, value))
  {
    var payload, rest := HeaderPacket(name, value), value + ['\0'];
    assert payload == name + ['\0'] + rest;
    FindIn(name, '\0', rest);
    assert payload[..|name|] == name && payload[|name| + 1..] == rest;
    assert rest[..|rest| - 1] == value;
  }

  lemma ParsedIsPacket(payload: Bytes)
    requires ParseHeader(payload).Ok?
    ensures var h := ParseHeader(payload).value;
      payload == HeaderPacket(h.name, h.value) && NulFree(h.name) && NulFree(h.value)
  {
    var n := Find(payload, '\0');
    var rest := payload[n + 1..];
    assert payload == payload[..n] + ['\0'] + rest;
    assert rest == rest[..|rest| - 1] + ['\0'];
    ConcatAssoc(payload[..n] + ['\0'], rest[..|rest| - 1], ['\0']);
    assert forall i :: 0 <= i < n ==> payload[..n][i] in payload[..n];
    var value := rest[..|rest| - 1];
    assert forall i :: 0 <= i < |value| ==> value[i] in value;
  }

  /** A payload is read as a header exactly when it is its name and its value, free
      of zero bytes, each followed by a zero byte. */
  lemma ReadsExactly(payload: Bytes, h: Header)
    ensures ParseHeader(payload) == Ok(h)
       <==> payload == HeaderPacket(h.name, h.value) && NulFree(h.name) && NulFree(h.value)
  {
    if ParseHeader(payload).Ok? {
      ParsedIsPacket(payload);
    }
    if payload == HeaderPacket(h.name, h.value) && NulFree(h.name) && NulFree(h.value) {
      PacketParses(h.name, h.value);
    }
  }

  lemma NamesAreNulFree(name: Bytes)
    requires NameRule(name)
    ensures NulFree(name)
  {
  }

  /** A header packet is in order exactly when its name is of 1 to 998 letters, digits
      and hyphens and its value has no zero byte. */
  lemma GoodExactly(payload: Bytes)
    ensures GoodHeader(payload)
       <==> exists name, value :: NameRule(name) && NulFree(value) && payload == HeaderPacket(name, value)
  {
    if ParseHeader(payload).Ok? {
      var h := ParseHeader(payload).value;
      ParsedIsPacket(payload);
      NameRuleExactly(h.name);
    }
    forall name, value | NameRule(name) && NulFree(value) && payload == HeaderPacket(name, value)
      ensures GoodHeader(payload)
    {
      NamesAreNulFree(name);
      NameRuleExactly(name);
      PacketParses(name, value);
    }
  }

  /** A header is made of exactly such names and values, and is then those. */
  lemma MadeExactly(name: Bytes, value: Bytes)
    ensures NewHeader(name, value) == if NameRule(name) && NulFree(value) then Some(Header(name, value)) else None
  {
    NameRuleExactly(name);
    assert '\0' in value ==> !NulFree(value);
    assert '\0' !in value ==> forall i :: 0 <= i < |value| ==> value[i] in value;
  }

  /** And what is wrong with any other payload: no zero byte at all, or a value that
      is not followed by the only other one. */
  lemma RefusedBecause(payload: Bytes)
    ensures ParseHeader(payload) == Err(MalformedPacket) <==> NulFree(payload)
    ensures ParseHeader(payload) == Err(MalformedValue)
       <==> !NulFree(payload) && !exists name, value ::
              NulFree(name) && NulFree(value) && payload == HeaderPacket(name, value)
  {
    var n := Find(payload, '\0');
    if n == |payload| {
      assert payload[..n] == payload && forall i :: 0 <= i < n ==> payload[i] in payload;
    }
    if ParseHeader(payload).Ok? {
      ParsedIsPacket(payload);
    }
    forall name, value | NulFree(name) && NulFree(value) && payload == HeaderPacket(name, value)
      ensures ParseHeader(payload).Ok?
    {
      PacketParses(name, value);
    }
  }

  /** Within the limits such a packet adds exactly that header to the message. */
  lemma HeaderTaken(m: Message, name: Bytes, value: Bytes)
    requires m.error.None? && NameRule(name) && NulFree(value)
    requires |m.headers| < 1000 && m.headerBytes + |name| + |value| <= 1_048_576
    ensures WithHeader(m, HeaderPacket(name, value))
         == m.(headers := m.headers + [Header(name, value)], headerBytes := m.headerBytes + |name| + |value|)
  {
    NamesAreNulFree(name);
    NameRuleExactly(name);
    PacketParses(name, value);
  }

  /** The first packet that is not in order, or goes over a limit, spoils the
      message and adds no header. */
  lemma HeaderRefused(m: Message, payload: Bytes)
    requires m.error.None? && m.headerBytes <= 1_048_576
    requires !GoodHeader(payload) || |m.headers| >= 1000 || m.headerBytes + HeaderSize(payload) > 1_048_576
    ensures var now := WithHeader(m, payload); now.error.Some? && now.headers == m.headers && now.body == m.body
  {
  }
}
