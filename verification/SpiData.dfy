/**
 * The data side of the host link (src/spi.c): acknowledgements, replies and memory dumps share one
 * output, one byte per interrupt.
 */
module SpiData {
  import opened Words
  import opened Ring

  datatype Kind = Ack | Reply | Dump

  /** `bytes` are the first bytes of `words`, in little-endian order. */
  predicate BytesOf(words: seq<Word>, bytes: seq<Byte>) {
    |bytes| <= 4 * |words| && forall j | 0 <= j < |bytes| :: bytes[j] == Octet(words[j / 4], j % 4)
  }

  lemma BytesOfSnoc(words: seq<Word>, bytes: seq<Byte>)
    requires BytesOf(words, bytes) && |words| == |bytes| / 4 + 1
    ensures BytesOf(words, bytes + [Octet(words[|words| - 1], |bytes| % 4)])
  {
    hide Octet;
  }

  lemma BytesOfGrow(words: seq<Word>, bytes: seq<Byte>, w: Word)
    requires BytesOf(words, bytes)
    ensures BytesOf(words + [w], bytes)
  {
    hide Octet;
  }

  /**
   * What is still to be sent.  `todo` bytes of a dump are left, `word` is the word being taken apart.
   * `grabbed` and `dumped` are the words fetched and the bytes sent since the dump was started.
   */
  datatype OutState = OutState(
    ack: seq<Byte>, reply: seq<Byte>,
    todo: nat, index: nat, word: Word, fromRx: bool, addr: nat,
    grabbed: seq<Word>, dumped: seq<Byte>)
  {
    predicate Wf() {
      && index < 4 && addr < TWO32
      && index == |dumped| % 4 && |grabbed| == (|dumped| + 3) / 4
      && (index > 0 ==> grabbed != [] && word == grabbed[|grabbed| - 1])
      && BytesOf(grabbed, dumped)
    }

    /** The next interrupt fetches a word. */
    predicate Fetches() {
      ack == [] && reply == [] && todo > 0 && index == 0
    }
  }

  /** One data interrupt; `w` is the word that a fetch returns. */
  function Step(o: OutState, w: Word): OutState
    requires o.index < 4
  {
    if o.ack != [] then o.(ack := o.ack[1..])
    else if o.reply != [] then o.(reply := o.reply[1..])
    else if o.todo == 0 then o
    else
      var cur := if o.index == 0 then w else o.word;
      o.(todo := o.todo - 1, word := cur,
         index := if o.index == 3 then 0 else o.index + 1,
         addr := if o.index == 3 then U32(o.addr + 4) else o.addr,
         grabbed := if o.index == 0 then o.grabbed + [w] else o.grabbed,
         dumped := o.dumped + [Octet(cur, o.index)])
  }

  /** The byte that the interrupt writes, if any. */
  function Output(o: OutState, w: Word): Option<(Kind, Byte)>
    requires o.index < 4
  {
    if o.ack != [] then Some((Ack, o.ack[0]))
    else if o.reply != [] then Some((Reply, o.reply[0]))
    else if o.todo == 0 then None
    else Some((Dump, Octet(if o.index == 0 then w else o.word, o.index)))
  }

  function StartDump(o: OutState, bytes: nat, fromRx: bool): OutState {
    o.(todo := bytes, index := 0, fromRx := fromRx, grabbed := [], dumped := [])
  }

  /** The bytes sent are always the bytes of the words fetched, in little-endian order. */
  lemma StepWf(o: OutState, w: Word)
    requires o.Wf()
    ensures Step(o, w).Wf()
  {
    hide Octet, U32, BytesOf;
    if o.ack == [] && o.reply == [] && o.todo > 0 {
      if o.index == 0 {
        BytesOfGrow(o.grabbed, o.dumped, w);
        BytesOfSnoc(o.grabbed + [w], o.dumped);
      } else {
        BytesOfSnoc(o.grabbed, o.dumped);
      }
    }
  }

  /** The word matters only to an interrupt that fetches it. */
  lemma NoFetch(o: OutState, v: Word, w: Word)
    requires o.index < 4 && (o.Fetches() ==> v == w)
    ensures Step(o, v) == Step(o, w)
  {
    hide Octet, U32;
  }

  // Runs of interrupts and requests.

  datatype Event =
    | Pull(fetched: Word)
    | QueueAck(bytes: seq<Byte>)
    | QueueReply(bytes: seq<Byte>)
    | QueueDump(count: nat, fromRx: bool)

  /** A request may only follow once its predecessor of the same kind has drained. */
  predicate Allowed(o: OutState, e: Event) {
    match e
    case Pull(_) => true
    case QueueAck(_) => o.ack == []
    case QueueReply(_) => o.reply == []
    case QueueDump(_, _) => o.todo == 0
  }

  function Apply(o: OutState, e: Event): (r: OutState)
    requires o.index < 4
    ensures r.index < 4
  {
    match e
    case Pull(w) => Step(o, w)
    case QueueAck(bytes) => o.(ack := bytes)
    case QueueReply(bytes) => o.(reply := bytes)
    case QueueDump(count, fromRx) => StartDump(o, count, fromRx)
  }

  function Run(o: OutState, es: seq<Event>): (r: OutState)
    requires o.index < 4
    ensures r.index < 4
  {
    if es == [] then o else Apply(Run(o, es[..|es| - 1]), es[|es| - 1])
  }

  predicate AllAllowed(o: OutState, es: seq<Event>)
    requires o.index < 4
  {
    es == [] || (AllAllowed(o, es[..|es| - 1]) && Allowed(Run(o, es[..|es| - 1]), es[|es| - 1]))
  }

  /** Everything written to the host, in order. */
  function Written(o: OutState, es: seq<Event>): seq<(Kind, Byte)>
    requires o.index < 4
  {
    if es == [] then []
    else
      var before := Run(o, es[..|es| - 1]);
      var last := es[|es| - 1];
      Written(o, es[..|es| - 1]) + Sent(before, last)
  }

  function Sent(o: OutState, e: Event): (out: seq<(Kind, Byte)>)
    requires o.index < 4
    ensures |out| <= 1
  {
    if e.Pull? && Output(o, e.fetched).Some? then [Output(o, e.fetched).value] else []
  }

  lemma NoFetchSends(o: OutState, v: Word, w: Word)
    requires o.index < 4 && (o.Fetches() ==> v == w)
    ensures Sent(o, Pull(v)) == Sent(o, Pull(w))
  {
    hide Octet;
  }

  /** The bytes of one stream. */
  function Of(kind: Kind, out: seq<(Kind, Byte)>): seq<Byte> {
    if out == [] then []
    else Of(kind, out[..|out| - 1]) + (if out[|out| - 1].0 == kind then [out[|out| - 1].1] else [])
  }

  lemma OfAppend(kind: Kind, out: seq<(Kind, Byte)>, x: seq<(Kind, Byte)>)
    requires |x| <= 1
    ensures Of(kind, out + x) == Of(kind, out) + Of(kind, x)
  {
    if x == [] {
      assert out + x == out;
    } else {
      assert (out + x)[..|out|] == out && x[..0] == [];
    }
  }

  lemma OfNone(kind: Kind)
    ensures Of(kind, []) == []
  {}

  /** One interrupt moves at most one byte, from the head of one stream to the output. */
  lemma SentPart(o: OutState, e: Event)
    requires o.index < 4
    ensures e.Pull? ==>
      && Of(Ack, Sent(o, e)) + Step(o, e.fetched).ack == o.ack
      && Of(Reply, Sent(o, e)) + Step(o, e.fetched).reply == o.reply
      && |Of(Dump, Sent(o, e))| + Step(o, e.fetched).todo == o.todo
      && o.dumped + Of(Dump, Sent(o, e)) == Step(o, e.fetched).dumped
    ensures !e.Pull? ==> forall kind :: Of(kind, Sent(o, e)) == []
  {
    hide Octet, U32;
    assert Sent(o, e) != [] ==> Sent(o, e)[..0] == [];
  }

  function AcksQueued(es: seq<Event>): seq<Byte> {
    if es == [] then []
    else AcksQueued(es[..|es| - 1]) + (if es[|es| - 1].QueueAck? then es[|es| - 1].bytes else [])
  }

  function RepliesQueued(es: seq<Event>): seq<Byte> {
    if es == [] then []
    else RepliesQueued(es[..|es| - 1]) + (if es[|es| - 1].QueueReply? then es[|es| - 1].bytes else [])
  }

  function DumpsQueued(es: seq<Event>): nat {
    if es == [] then 0
    else DumpsQueued(es[..|es| - 1]) + (if es[|es| - 1].QueueDump? then es[|es| - 1].count else 0)
  }

  /** The bytes of all dumps that a later one followed. */
  function DumpsEnded(o: OutState, es: seq<Event>): seq<Byte>
    requires o.index < 4
  {
    if es == [] then []
    else
      DumpsEnded(o, es[..|es| - 1])
      + (if es[|es| - 1].QueueDump? then Run(o, es[..|es| - 1]).dumped else [])
  }

  lemma {:induction false} AcksWhole(o: OutState, es: seq<Event>)
    requires o.index < 4 && AllAllowed(o, es)
    ensures Of(Ack, Written(o, es)) + Run(o, es).ack == o.ack + AcksQueued(es)
  {
    hide Octet, U32, Step, Output, Sent, Of;
    if es == [] {
      OfNone(Ack);
    } else {
      var n := |es| - 1;
      AcksWhole(o, es[..n]);
      var before, e := Run(o, es[..n]), es[n];
      var w, x := Of(Ack, Written(o, es[..n])), Of(Ack, Sent(before, e));
      OfAppend(Ack, Written(o, es[..n]), Sent(before, e));
      SentPart(before, e);
      var q := AcksQueued(es[..n]);
      match e {
        case Pull(_) => assert (w + x) + Run(o, es).ack == w + (x + Run(o, es).ack);
        case QueueAck(bytes) => assert o.ack + (q + bytes) == (o.ack + q) + bytes == w + x + bytes;
        case _ => assert w + x == w && q + [] == q;
      }
    }
  }

  lemma {:induction false} RepliesWhole(o: OutState, es: seq<Event>)
    requires o.index < 4 && AllAllowed(o, es)
    ensures Of(Reply, Written(o, es)) + Run(o, es).reply == o.reply + RepliesQueued(es)
  {
    hide Octet, U32, Step, Output, Sent, Of;
    if es == [] {
      OfNone(Reply);
    } else {
      var n := |es| - 1;
      RepliesWhole(o, es[..n]);
      var before, e := Run(o, es[..n]), es[n];
      var w, x := Of(Reply, Written(o, es[..n])), Of(Reply, Sent(before, e));
      OfAppend(Reply, Written(o, es[..n]), Sent(before, e));
      SentPart(before, e);
      var q := RepliesQueued(es[..n]);
      match e {
        case Pull(_) => assert (w + x) + Run(o, es).reply == w + (x + Run(o, es).reply);
        case QueueReply(bytes) => assert o.reply + (q + bytes) == (o.reply + q) + bytes == w + x + bytes;
        case _ => assert w + x == w && q + [] == q;
      }
    }
  }

  lemma {:induction false} DumpsWhole(o: OutState, es: seq<Event>)
    requires o.index < 4 && AllAllowed(o, es)
    ensures |Of(Dump, Written(o, es))| + Run(o, es).todo == o.todo + DumpsQueued(es)
    ensures o.dumped + Of(Dump, Written(o, es)) == DumpsEnded(o, es) + Run(o, es).dumped
  {
    hide Octet, U32, Step, Output, Sent, Of;
    if es == [] {
      OfNone(Dump);
    } else {
      var n := |es| - 1;
      DumpsWhole(o, es[..n]);
      var before, e := Run(o, es[..n]), es[n];
      var w, x := Of(Dump, Written(o, es[..n])), Of(Dump, Sent(before, e));
      OfAppend(Dump, Written(o, es[..n]), Sent(before, e));
      SentPart(before, e);
      var d := DumpsEnded(o, es[..n]);
      match e {
        case Pull(_) => assert o.dumped + (w + x) == (d + before.dumped) + x == d + (before.dumped + x);
        case QueueDump(_, _) => assert o.dumped + w == d + before.dumped + [];
        case _ => assert w + x == w && d + [] == d;
      }
    }
  }

  /**
   * However the three streams are interleaved, what has been written of each, followed by what is still
   * pending, is exactly what was queued: nothing lost, doubled or reordered.
   */
  lemma StreamsWhole(o: OutState, es: seq<Event>)
    requires o.index < 4 && AllAllowed(o, es)
    ensures Of(Ack, Written(o, es)) + Run(o, es).ack == o.ack + AcksQueued(es)
    ensures Of(Reply, Written(o, es)) + Run(o, es).reply == o.reply + RepliesQueued(es)
    ensures |Of(Dump, Written(o, es))| + Run(o, es).todo == o.todo + DumpsQueued(es)
    ensures o.dumped + Of(Dump, Written(o, es)) == DumpsEnded(o, es) + Run(o, es).dumped
  {
    AcksWhole(o, es);
    RepliesWhole(o, es);
    DumpsWhole(o, es);
  }

  // Priority.

  function Tagged(kind: Kind, bytes: seq<Byte>): (r: seq<(Kind, Byte)>)
    ensures |r| == |bytes|
  {
    seq(|bytes|, i requires 0 <= i < |bytes| => (kind, bytes[i]))
  }

  /** The output without acknowledgement bytes. */
  function NotAck(out: seq<(Kind, Byte)>): seq<(Kind, Byte)> {
    if out == [] then []
    else NotAck(out[..|out| - 1]) + (if out[|out| - 1].0 == Ack then [] else [out[|out| - 1]])
  }

  /** `out` starts with `bytes`, or is the part of them that `left` does not hold. */
  predicate Leads(kind: Kind, bytes: seq<Byte>, left: seq<Byte>, out: seq<(Kind, Byte)>) {
    if |out| < |bytes| then left == bytes[|out|..] && out == Tagged(kind, bytes[..|out|])
    else out[..|bytes|] == Tagged(kind, bytes)
  }

  /** A stream that leads goes on leading: its next byte comes next, as long as there is one. */
  lemma LeadsOn(kind: Kind, bytes: seq<Byte>, left: seq<Byte>, out: seq<(Kind, Byte)>, next: seq<Byte>, x: seq<(Kind, Byte)>)
    requires Leads(kind, bytes, left, out)
    requires |out| < |bytes| ==> (x == [] && next == left) || (left != [] && x == [(kind, left[0])] && next == left[1..])
    ensures Leads(kind, bytes, next, out + x)
  {
    if |out| < |bytes| && x != [] {
      assert bytes[..|out| + 1] == bytes[..|out|] + [left[0]];
      assert bytes[..|bytes|] == bytes;
    }
  }

  /** An event does not touch a pending acknowledgement, or sends its next byte. */
  lemma AckNext(o: OutState, e: Event)
    requires o.index < 4 && Allowed(o, e) && o.ack != []
    ensures var t, x := Apply(o, e), Sent(o, e);
      (x == [] && t.ack == o.ack) || (x == [(Ack, o.ack[0])] && t.ack == o.ack[1..])
  {
    hide Octet, U32;
  }

  /** While an acknowledgement is pending, no other byte is written, whatever is requested meanwhile. */
  lemma {:induction false} AckGoesFirst(o: OutState, es: seq<Event>)
    requires o.index < 4 && AllAllowed(o, es)
    ensures Leads(Ack, o.ack, Run(o, es).ack, Written(o, es))
  {
    hide Octet, U32, Apply, Sent, Allowed;
    if es != [] {
      var n := |es| - 1;
      AckGoesFirst(o, es[..n]);
      var before := Run(o, es[..n]);
      if |Written(o, es[..n])| < |o.ack| {
        AckNext(before, es[n]);
      }
      LeadsOn(Ack, o.ack, before.ack, Written(o, es[..n]), Run(o, es).ack, Sent(before, es[n]));
    }
  }

  /** An event does not touch a pending reply, or sends its next byte; other bytes are acknowledgements. */
  lemma ReplyNext(o: OutState, e: Event)
    requires o.index < 4 && Allowed(o, e) && o.reply != []
    ensures var t, x := Apply(o, e), NotAck(Sent(o, e));
      (x == [] && t.reply == o.reply) || (x == [(Reply, o.reply[0])] && t.reply == o.reply[1..])
  {
    hide Octet, U32;
    assert Sent(o, e) != [] ==> Sent(o, e)[..0] == [];
  }

  lemma NotAckAppend(out: seq<(Kind, Byte)>, x: seq<(Kind, Byte)>)
    requires |x| <= 1
    ensures NotAck(out + x) == NotAck(out) + NotAck(x)
  {
    if x == [] {
      assert out + x == out;
    } else {
      assert (out + x)[..|out|] == out && x[..0] == [];
    }
  }

  /** While a reply is pending, no byte of a dump is written: only acknowledgements pass it. */
  lemma {:induction false} ReplyGoesNext(o: OutState, es: seq<Event>)
    requires o.index < 4 && AllAllowed(o, es)
    ensures Leads(Reply, o.reply, Run(o, es).reply, NotAck(Written(o, es)))
  {
    hide Octet, U32, Apply, Sent, Allowed, NotAck;
    if es == [] {
      assert NotAck(Written(o, es)) == [] by { NotAckNone(); }
    } else {
      var n := |es| - 1;
      ReplyGoesNext(o, es[..n]);
      var before := Run(o, es[..n]);
      if |NotAck(Written(o, es[..n]))| < |o.reply| {
        ReplyNext(before, es[n]);
      }
      NotAckAppend(Written(o, es[..n]), Sent(before, es[n]));
      LeadsOn(Reply, o.reply, before.reply, NotAck(Written(o, es[..n])), Run(o, es).reply, NotAck(Sent(before, es[n])));
    }
  }

  lemma NotAckNone()
    ensures NotAck([]) == []
  {}

  /**
   * Priority over runs.  After any run, queue an acknowledgement or a reply and go on with any other run:
   * the acknowledgement's bytes are the next ones written, all of them, before any other; the reply's
   * bytes are the next ones that are not acknowledgements.
   */
  lemma PriorityKept(o: OutState, before: seq<Event>, bytes: seq<Byte>, after: seq<Event>)
    requires o.index < 4
    ensures var a := Apply(Run(o, before), QueueAck(bytes));
      AllAllowed(a, after) ==> Leads(Ack, bytes, Run(a, after).ack, Written(a, after))
    ensures var r := Apply(Run(o, before), QueueReply(bytes));
      AllAllowed(r, after) ==> Leads(Reply, bytes, Run(r, after).reply, NotAck(Written(r, after)))
  {
    hide Leads, NotAck, Written, Run, AllAllowed;
    var a, r := Apply(Run(o, before), QueueAck(bytes)), Apply(Run(o, before), QueueReply(bytes));
    if AllAllowed(a, after) {
      AckGoesFirst(a, after);
    }
    if AllAllowed(r, after) {
      ReplyGoesNext(r, after);
    }
  }

  /** A fetch returns the next of `ws`, as long as there is one. */
  predicate FetchOk(o: OutState, e: Event, ws: seq<Word>) {
    e.Pull? && o.Fetches() && |o.grabbed| < |ws| ==> e.fetched == ws[|o.grabbed|]
  }

  predicate FetchesFrom(o: OutState, es: seq<Event>, ws: seq<Word>)
    requires o.index < 4
  {
    es == []
    || (FetchesFrom(o, es[..|es| - 1], ws) && FetchOk(Run(o, es[..|es| - 1]), es[|es| - 1], ws))
  }

  predicate NoDump(es: seq<Event>) {
    forall e | e in es :: !e.QueueDump?
  }

  predicate Agree(a: seq<Word>, b: seq<Word>) {
    forall i | 0 <= i < |a| && i < |b| :: a[i] == b[i]
  }

  /** A dump sends the bytes of the words it fetches, whatever is sent in between. */
  lemma DumpGives(o: OutState, es: seq<Event>, ws: seq<Word>)
    requires o.Wf() && FetchesFrom(o, es, ws) && NoDump(es) && Agree(o.grabbed, ws)
    requires |Run(o, es).dumped| <= 4 * |ws|
    ensures Run(o, es).dumped == Unpack(ws)[..|Run(o, es).dumped|]
  {
    DumpInvariant(o, es, ws);
    hide Octet;
    var r, b := Run(o, es), Unpack(ws);
    forall j | 0 <= j < |r.dumped|
      ensures r.dumped[j] == b[j]
    {
      assert r.grabbed[j / 4] == ws[j / 4];
    }
  }

  /** Bytes taken from words that agree with `ws` are the bytes of `ws`, as far as both go. */
  lemma BytesAgree(grabbed: seq<Word>, dumped: seq<Byte>, ws: seq<Word>, n: nat)
    requires BytesOf(grabbed, dumped) && Agree(grabbed, ws) && n <= |dumped| && n <= 4 * |ws|
    ensures dumped[..n] == Unpack(ws)[..n]
  {
    hide Octet;
    var b := Unpack(ws);
    forall j | 0 <= j < n
      ensures dumped[j] == b[j]
    {
      assert grabbed[j / 4] == ws[j / 4];
    }
  }

  lemma StepAgrees(o: OutState, e: Event, ws: seq<Word>)
    requires o.index < 4 && FetchOk(o, e, ws) && !e.QueueDump? && Agree(o.grabbed, ws)
    ensures Agree(Apply(o, e).grabbed, ws)
  {
    hide Octet, U32;
  }

  lemma {:induction false} DumpInvariant(o: OutState, es: seq<Event>, ws: seq<Word>)
    requires o.Wf() && FetchesFrom(o, es, ws) && NoDump(es) && Agree(o.grabbed, ws)
    ensures Run(o, es).Wf() && Agree(Run(o, es).grabbed, ws)
  {
    hide OutState.Wf, Step, Agree, FetchOk;
    IndexIs(o);
    if es != [] {
      var n := |es| - 1;
      assert NoDump(es[..n]);
      DumpInvariant(o, es[..n], ws);
      assert !es[n].QueueDump?;
      ApplyWf(Run(o, es[..n]), es[n]);
      StepAgrees(Run(o, es[..n]), es[n], ws);
    }
  }

  lemma ApplyWf(o: OutState, e: Event)
    requires o.Wf()
    ensures Apply(o, e).Wf()
  {
    hide Octet, U32;
    if e.Pull? {
      StepWf(o, e.fetched);
    }
  }

  /** The address after one more event. */
  lemma AddressStep(o: OutState, e: Event, start: nat)
    requires o.Wf() && !e.QueueDump? && o.addr == U32(start + 4 * (|o.dumped| / 4))
    ensures Apply(o, e).addr == U32(start + 4 * (|Apply(o, e).dumped| / 4))
  {
    hide Octet, U32, BytesOf;
    U32Twice(start + 4 * (|o.dumped| / 4), 4);
  }

  /** A dump from memory steps through consecutive addresses. */
  lemma {:induction false} DumpAddresses(o: OutState, es: seq<Event>, start: nat)
    requires o.Wf() && NoDump(es) && o.addr == U32(start + 4 * (|o.dumped| / 4))
    ensures Run(o, es).Wf() && Run(o, es).addr == U32(start + 4 * (|Run(o, es).dumped| / 4))
  {
    hide U32, OutState.Wf, Apply;
    IndexIs(o);
    if es != [] {
      var n := |es| - 1;
      assert NoDump(es[..n]);
      DumpAddresses(o, es[..n], start);
      var before, e := Run(o, es[..n]), es[n];
      assert !e.QueueDump?;
      ApplyWf(before, e);
      AddressStep(before, e, start);
    }
  }

  lemma IndexIs(o: OutState)
    requires o.Wf()
    ensures o.index == |o.dumped| % 4 && o.index < 4
  {}
}
