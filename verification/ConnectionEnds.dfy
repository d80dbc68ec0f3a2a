/** When a connection ends and when it goes on, by the letters of the commands. */
module ConnectionEnds {
  import opened ByteStrings
  import opened Framing
  import opened Milter
  import opened MilterHistory

  /** The commands of the protocol after which a connection can go on. */
  predicate IsStep(command: Byte) {
    || command == 'O' || command == 'C' || command == 'H' || command == 'M' || command == 'R' || command == 'T'
    || command == 'L' || command == 'N' || command == 'B' || command == 'E' || command == 'A' || command == 'D'
    || command == 'U'
  }

  /** The size of the reply that would carry a field, with the letter, the index if
      one is sent, and the name with its zero bytes. */
  function ReplySize(actions: nat, field: Bytes): nat {
    1 + (if And(actions, 0x10) != 0 then 4 else 0) + 15 + |field| + 1
  }

  lemma FitsExactly(actions: nat, field: Bytes)
    ensures Fits(HeaderAction(actions, field)) <==> ReplySize(actions, field) <= 0xFFFF_FFFF
  {
    assert |FIELD_NAME| == 15;
  }

  /** The end of a message yields a field that no packet can carry. */
  predicate Oversized(w: World, packets: seq<Bytes>) {
    var outcome := StoredOutcome(w, packets, w.moments(|packets|).time);
    outcome.Ok? && ReplySize(Negotiation(packets).0, outcome.value) > 0xFFFF_FFFF
  }

  lemma EndVerdict(outcome: Result<Bytes, Reason>, actions: nat)
    ensures EndReplies(outcome, actions).1
         == if outcome.Ok? && ReplySize(actions, outcome.value) > 0xFFFF_FFFF then Aborted else Open
  {
    if outcome.Ok? {
      FitsExactly(actions, outcome.value);
    }
  }

  lemma VerdictByLetter(packet: Bytes, flags: (nat, nat), outcome: Result<Bytes, Reason>)
    ensures RepliesFor(packet, flags, outcome).1
         == if packet == [] then Aborted
            else if packet[0] == 'Q' || packet[0] == 'K' then Closed
            else if packet[0] == 'E' then EndReplies(outcome, flags.0).1
            else if !IsStep(packet[0]) || (packet[0] == 'O' && |packet| != 13) then Aborted
            else Open
  {
  }

  /** From an open connection: it is closed by Q and K only; it is aborted by an
      empty packet, by any other letter than those of the protocol, by an offer that
      is not of twelve bytes, and by a signature too long for a packet; and it goes
      on after everything else. */
  lemma EndsExactlyWhen(w: World, packets: seq<Bytes>, packet: Bytes)
    requires After(w, packets).verdict == Open
    ensures var verdict := After(w, packets + [packet]).verdict;
      && (verdict == Closed <==> packet != [] && (packet[0] == 'Q' || packet[0] == 'K'))
      && (verdict == Aborted <==>
            || packet == []
            || (packet[0] != 'Q' && packet[0] != 'K' && !IsStep(packet[0]))
            || (packet[0] == 'O' && |packet| != 13)
            || (packet[0] == 'E' && Oversized(w, packets)))
  {
    var outcome := StoredOutcome(w, packets, w.moments(|packets|).time);
    StreamingIsStoreAndForward(w, packets);
    StreamingIsStoreAndForward(w, packets + [packet]);
    StoreAndForwardSnoc(w, packets, packet);
    VerdictByLetter(packet, Negotiation(packets), outcome);
    EndVerdict(outcome, Negotiation(packets).0);
  }

  /** An ordinary session: packets of the protocol's letters, offers of twelve bytes,
      and no field too long, leave the connection open to the end. */
  predicate Ordinary(packet: Bytes) { packet != [] && IsStep(packet[0]) && (packet[0] == 'O' ==> |packet| == 13) }

  lemma {:induction false} OrdinarySessionStaysOpen(w: World, packets: seq<Bytes>)
    requires forall i :: 0 <= i < |packets| ==> Ordinary(packets[i])
    requires forall i :: 0 <= i < |packets| ==> !Oversized(w, packets[..i])
    ensures After(w, packets).verdict == Open
    decreases |packets|
  {
    if packets != [] {
      var n := |packets| - 1;
      var front := packets[..n];
      SplitLast(packets);
      forall i | 0 <= i < n
        ensures Ordinary(front[i]) && !Oversized(w, front[..i])
      {
        PrefixOfPrefix(packets, n, i);
      }
      OrdinarySessionStaysOpen(w, front);
      EndsExactlyWhen(w, front, packets[n]);
    }
  }
}
