/** What the WebSocket reader makes of a stream of message-carrying frames, however it is cut into reads. */
module WsReassembly {
  import opened Bytes
  import opened Frame
  import opened FrameLaws
  import opened Message
  import opened WsRead
  import opened WsFront

  ghost predicate Carriers(fs: seq<Frame>)
  {
    forall i :: 0 <= i < |fs| ==> Carrier(fs[i])
  }

  ghost function MessagesIn(fs: seq<Frame>): (ms: seq<Message>)
    requires Carriers(fs)
    ensures |ms| == |fs|
  {
    if fs == [] then [] else [MessageOf(fs[0].payload)] + MessagesIn(fs[1..])
  }

  /** How many frames lie whole within the first `n` octets of the stream. */
  ghost function WholeFrames(fs: seq<Frame>, n: nat): (k: nat)
    requires Carriers(fs)
    ensures k <= |fs|
  {
    if fs == [] || n < |fs[0].Wire()| then 0 else 1 + WholeFrames(fs[1..], n - |fs[0].Wire()|)
  }

  lemma {:induction false} WholeFits(fs: seq<Frame>, m: nat, n: nat)
    requires Carriers(fs) && m <= WholeFrames(fs, n)
    ensures |WireAll(fs[..m])| <= n
  {
    hide Carrier, Frame.Wire;
    if m > 0 {
      WholeFits(fs[1..], m - 1, n - |fs[0].Wire()|);
      assert fs[..m][1..] == fs[1..][..m - 1];
    }
  }

  // Where a callback ends.

  /** The callback comes to a frame cut short with which it does not get along. */
  ghost predicate Upsets(fs: seq<Frame>, buffer: seq<byte>, n: nat, tries: nat)
    requires Carriers(fs) && n <= |buffer| == BUFFER_SIZE
    decreases tries
  {
    && tries > 0 && fs != []
    && if n >= |fs[0].Wire()| then Upsets(fs[1..], AfterFrame(fs[0], buffer, n), n - |fs[0].Wire()|, tries - 1)
       else Upset(fs[0], buffer, n, tries)
  }

  /** The array after the callback, octets left over from earlier frames included. */
  ghost function Kept(fs: seq<Frame>, buffer: seq<byte>, n: nat, tries: nat): (b: seq<byte>)
    requires Carriers(fs) && n <= |buffer| == BUFFER_SIZE
    ensures |b| == |buffer|
    decreases tries
  {
    if tries == 0 || fs == [] then buffer
    else if n >= |fs[0].Wire()| then Kept(fs[1..], AfterFrame(fs[0], buffer, n), n - |fs[0].Wire()|, tries - 1)
    else Settled(fs[0], buffer, n, tries)
  }

  /**
   Octet `n` of the stream falls one to four octets before the end of a masked frame, or two to six octets into
   a frame with a 64-bit length: what makes Upsets possible, whatever the array holds.
   */
  ghost predicate BadCut(fs: seq<Frame>, n: nat)
    requires Carriers(fs)
  {
    && fs != []
    && if n >= |fs[0].Wire()| then BadCut(fs[1..], n - |fs[0].Wire()|)
       else LateCut(fs[0], n) || (|fs[0].len| == 9 && 2 <= n <= 6)
  }

  /** The length field of every masked message stands before the last four octets of its frame. */
  ghost predicate LengthsShow(fs: seq<Frame>)
  {
    forall i :: 0 <= i < |fs| && fs[i].Masked() ==> |fs[i].payload| >= HEAD_LENGTH + 2
  }

  /** No frame uses the 64-bit length. */
  ghost predicate ShortForms(fs: seq<Frame>)
  {
    forall i :: 0 <= i < |fs| ==> |fs[i].len| <= 3
  }

  lemma {:induction false} UnmaskedHasNoBadCut(fs: seq<Frame>, n: nat)
    requires Carriers(fs) && ShortForms(fs) && forall i :: 0 <= i < |fs| ==> !fs[i].Masked()
    ensures !BadCut(fs, n)
  {
    hide Carrier, Frame.Masked, Frame.Wire;
    if fs != [] && n >= |fs[0].Wire()| {
      UnmaskedHasNoBadCut(fs[1..], n - |fs[0].Wire()|);
    }
  }

  /** A cut that is not bad upsets nothing, whatever the array holds behind the octets received. */
  lemma {:induction false} GoodCutIsSound(fs: seq<Frame>, buffer: seq<byte>, n: nat, tries: nat)
    requires Carriers(fs) && n <= |buffer| == BUFFER_SIZE && buffer[..n] <= WireAll(fs)
    requires WholeFrames(fs, n) < tries ==> !BadCut(fs, n)
    ensures !Upsets(fs, buffer, n, tries)
    decreases tries
  {
    hide Carrier, Frame.Wire, AfterFrame, LateCut, LongEnough, Upset;
    if fs != [] && tries > 0 {
      var f := fs[0];
      CarrierShape(f);
      PrefixOfFirst(fs, buffer[..n]);
      if n >= |f.Wire()| {
        AfterFrameHolds(f, buffer, n);
        assert buffer[..n][|f.Wire()|..] == buffer[|f.Wire()|..n];
        GoodCutIsSound(fs[1..], AfterFrame(f, buffer, n), n - |f.Wire()|, tries - 1);
      } else {
        GoodFirstCut(f, buffer, n);
        UpsetIsSpoilt(f, buffer, n, tries);
      }
    }
  }

  lemma UpsetIsSpoilt(f: Frame, buffer: seq<byte>, n: nat, tries: nat)
    requires |f.Wire()| <= |buffer| == BUFFER_SIZE
    ensures Upset(f, buffer, n, tries) ==> Spoilt(f, buffer, n)
  {
  }

  /** Without 64-bit lengths, and with the length fields received, a bad cut always upsets. */
  lemma {:induction false} BadCutUpsets(fs: seq<Frame>, buffer: seq<byte>, n: nat, tries: nat)
    requires Carriers(fs) && ShortForms(fs) && LengthsShow(fs) && n <= |buffer| == BUFFER_SIZE && buffer[..n] <= WireAll(fs)
    requires WholeFrames(fs, n) < tries && BadCut(fs, n)
    ensures Upsets(fs, buffer, n, tries)
    decreases tries
  {
    hide Carrier, Frame.Wire, AfterFrame, LateCut, LongEnough, Upset, Frame.Masked;
    var f := fs[0];
    CarrierShape(f);
    PrefixOfFirst(fs, buffer[..n]);
    if n >= |f.Wire()| {
      AfterFrameHolds(f, buffer, n);
      assert buffer[..n][|f.Wire()|..] == buffer[|f.Wire()|..n];
      BadCutUpsets(fs[1..], AfterFrame(f, buffer, n), n - |f.Wire()|, tries - 1);
    } else {
      ShownFaults(f, buffer, n, tries);
    }
  }

  ghost function Min(a: nat, b: nat): nat
  {
    if a <= b then a else b
  }

  /** The loop has taken out the first `m` frames of what the array held, and waits for more. */
  ghost predicate Took(fs: seq<Frame>, m: nat, held: seq<byte>, o: Outcome)
    requires Carriers(fs) && m <= |fs|
  {
    && o.Waiting?
    && o.posted == MessagesIn(fs[..m])
    && |o.buffer| == BUFFER_SIZE && o.cur <= BUFFER_SIZE
    && WireAll(fs[..m]) + o.buffer[..o.cur] == held
  }

  lemma TookNothing(fs: seq<Frame>, buffer: seq<byte>, cur: nat)
    requires Carriers(fs) && |buffer| == BUFFER_SIZE && cur <= BUFFER_SIZE
    ensures Took(fs, 0, buffer[..cur], Waiting(buffer, cur, []))
  {
    assert fs[..0] == [];
  }

  lemma TookNothingIff(fs: seq<Frame>, held: seq<byte>, o: Outcome)
    requires Carriers(fs)
    ensures Took(fs, 0, held, o) <==>
            o.Waiting? && o.posted == [] && |o.buffer| == BUFFER_SIZE && o.cur <= BUFFER_SIZE && o.buffer[..o.cur] == held
  {
    assert fs[..0] == [];
    assert o.Waiting? && o.cur <= |o.buffer| ==> [] + o.buffer[..o.cur] == o.buffer[..o.cur];
  }

  lemma TookOneMore(fs: seq<Frame>, m: nat, held: seq<byte>, o: Outcome)
    requires Carriers(fs) && fs != [] && m < |fs| && |fs[0].payload| >= HEAD_LENGTH
    ensures Took(fs[1..], m, held, o) <==> Took(fs, m + 1, fs[0].Wire() + held, Prepend([MessageOf(fs[0].payload)], o))
  {
    hide MessageOf, Frame.Wire, Carrier;
    var taken, head := fs[..m + 1], fs[0].Wire();
    assert taken[1..] == fs[1..][..m];
    if o.Waiting? && o.cur <= |o.buffer| {
      var left := o.buffer[..o.cur];
      Regroup(head, WireAll(taken[1..]), left);
      SameBehind(head, WireAll(taken[1..]) + left, held);
      SameBehind([MessageOf(fs[0].payload)], o.posted, MessagesIn(taken[1..]));
    }
  }

  lemma SameBehind<T>(head: seq<T>, a: seq<T>, b: seq<T>)
    ensures head + a == head + b <==> a == b
  {
    assert a == (head + a)[|head|..] && b == (head + b)[|head|..];
  }

  lemma PrefixOfFirst(fs: seq<Frame>, held: seq<byte>)
    requires Carriers(fs) && fs != [] && held <= WireAll(fs)
    ensures |held| >= |fs[0].Wire()| ==> fs[0].Wire() <= held && held[|fs[0].Wire()|..] <= WireAll(fs[1..])
    ensures |held| < |fs[0].Wire()| ==> held == fs[0].Wire()[..|held|]
  {
    hide Frame.Wire, Carrier;
    var f, rest := fs[0], WireAll(fs[1..]);
    assert held == (f.Wire() + rest)[..|held|];
    if |held| >= |f.Wire()| {
      assert held[|f.Wire()|..] == rest[..|held| - |f.Wire()|];
    }
  }

  /**
   One callback on any stream, whatever the array holds behind the octets received: it takes out the first ten
   whole frames, or as many as there are, and leaves every other octet, exactly when it does not come to a
   frame cut short that upsets it.
   */
  lemma {:induction false} DrainTakes(fs: seq<Frame>, buffer: seq<byte>, cur: nat, tries: nat)
    requires Carriers(fs) && |buffer| == BUFFER_SIZE && cur <= BUFFER_SIZE && buffer[..cur] <= WireAll(fs)
    ensures var o, m := Drain(buffer, cur, tries), Min(tries, WholeFrames(fs, cur));
            && (Took(fs, m, buffer[..cur], o) <==> !Upsets(fs, buffer, cur, tries))
            && (Took(fs, m, buffer[..cur], o) ==> o.Waiting? && o.buffer == Kept(fs, buffer, cur, tries))
    decreases tries
  {
    hide Took, Carrier, MessageOf, Drain, Frame.Wire, AfterFrame, Upset, Settled;
    if tries == 0 {
      WsConnection.NoTurnsLeft(buffer, cur);
      TookNothing(fs, buffer, cur);
    } else if fs == [] {
      NothingHeld(buffer, tries);
      TookNothing(fs, buffer, cur);
    } else {
      var f := fs[0];
      CarrierShape(f);
      PrefixOfFirst(fs, buffer[..cur]);
      if cur >= |f.Wire()| {
        assert f.Wire() <= buffer;
        var left, rest := AfterFrame(f, buffer, cur), cur - |f.Wire()|;
        DrainWhole(f, buffer, cur, tries);
        assert buffer[..cur][|f.Wire()|..] == buffer[|f.Wire()|..cur];
        DrainTakes(fs[1..], left, rest, tries - 1);
        TookOneMore(fs, Min(tries - 1, WholeFrames(fs[1..], rest)), left[..rest], Drain(left, rest, tries - 1));
        assert f.Wire() + buffer[|f.Wire()|..cur] == buffer[..cur];
      } else {
        CutOutcome(f, buffer, cur, tries);
        TookNothingIff(fs, buffer[..cur], Drain(buffer, cur, tries));
      }
    }
  }

  /** With the length fields received, a callback that is upset goes out of the received octets. */
  lemma {:induction false} DrainFaults(fs: seq<Frame>, buffer: seq<byte>, cur: nat, tries: nat)
    requires Carriers(fs) && LengthsShow(fs) && |buffer| == BUFFER_SIZE && cur <= BUFFER_SIZE && buffer[..cur] <= WireAll(fs)
    requires Upsets(fs, buffer, cur, tries)
    ensures Drain(buffer, cur, tries).Fault?
    decreases tries
  {
    hide Carrier, MessageOf, Drain, Frame.Wire, AfterFrame, Upset, Frame.Masked, Spoilt;
    var f := fs[0];
    CarrierShape(f);
    PrefixOfFirst(fs, buffer[..cur]);
    if cur >= |f.Wire()| {
      assert f.Wire() <= buffer;
      DrainWhole(f, buffer, cur, tries);
      assert buffer[..cur][|f.Wire()|..] == buffer[|f.Wire()|..cur];
      DrainFaults(fs[1..], AfterFrame(f, buffer, cur), cur - |f.Wire()|, tries - 1);
    } else {
      UpsetIsSpoilt(f, buffer, cur, tries);
      ShownFaults(f, buffer, cur, tries);
    }
  }

  lemma NothingHeld(buffer: seq<byte>, tries: nat)
    requires tries > 0
    ensures Drain(buffer, 0, tries) == Waiting(buffer, 0, [])
  {
    IncompleteWaits(buffer, 0, tries);
  }

  // Whole runs.

  /** One completion handler after another. A read that does not fit the array is counted as a fault. */
  function Run(buffer: seq<byte>, cur: nat, chunks: seq<seq<byte>>): Outcome
    requires cur <= |buffer|
    decreases |chunks|
  {
    if chunks == [] then Waiting(buffer, cur, [])
    else if cur + |chunks[0]| > |buffer| then Fault
    else
      match Drain(Landed(buffer, cur, chunks[0]), cur + |chunks[0]|, FRAMES_PER_READ)
      case Waiting(b, c, ms) => if c <= |b| then Prepend(ms, Run(b, c, chunks[1..])) else Fault
      case Stopped(b, c, ms) => Stopped(b, c, ms)
      case Fault => Fault
  }

  ghost function TakenBy(fs: seq<Frame>, n: nat): (m: nat)
    requires Carriers(fs)
    ensures m <= |fs|
  {
    Min(FRAMES_PER_READ, WholeFrames(fs, n))
  }

  /** Each read brings at least one octet and at most what the array has room for, and none ends in a bad cut which the handler then comes to. */
  ghost predicate GoodReads(fs: seq<Frame>, cur: nat, chunks: seq<seq<byte>>)
    requires Carriers(fs)
    decreases |chunks|
  {
    chunks == [] ||
    (var n := cur + |chunks[0]|; var m := TakenBy(fs, n);
     WholeFits(fs, m, n);
     && 1 <= |chunks[0]| <= BUFFER_SIZE - cur
     && (WholeFrames(fs, n) < FRAMES_PER_READ ==> !BadCut(fs, n))
     && GoodReads(fs[m..], n - |WireAll(fs[..m])|, chunks[1..]))
  }

  /** The same with the exact condition, on what the array holds each time. */
  ghost predicate SoundReads(fs: seq<Frame>, buffer: seq<byte>, cur: nat, chunks: seq<seq<byte>>)
    requires Carriers(fs) && cur <= |buffer| == BUFFER_SIZE
    decreases |chunks|
  {
    chunks == [] ||
    (1 <= |chunks[0]| <= BUFFER_SIZE - cur
     && var landed, n := Landed(buffer, cur, chunks[0]), cur + |chunks[0]|; var m := TakenBy(fs, n);
        WholeFits(fs, m, n);
        && !Upsets(fs, landed, n, FRAMES_PER_READ)
        && SoundReads(fs[m..], Kept(fs, landed, n, FRAMES_PER_READ), n - |WireAll(fs[..m])|, chunks[1..]))
  }

  /** What the socket promises: each read brings at least one octet and at most what the array has room for. */
  predicate ReadsFit(buffer: seq<byte>, cur: nat, chunks: seq<seq<byte>>)
    requires cur <= |buffer|
    decreases |chunks|
  {
    chunks == [] ||
    (1 <= |chunks[0]| <= |buffer| - cur
     && match Drain(Landed(buffer, cur, chunks[0]), cur + |chunks[0]|, FRAMES_PER_READ)
        case Waiting(b, c, _) => c <= |b| && ReadsFit(b, c, chunks[1..])
        case Stopped(_, _, _) => true
        case Fault => true)
  }

  lemma LandedPrefix(buffer: seq<byte>, cur: nat, chunks: seq<seq<byte>>, s: seq<byte>)
    requires chunks != [] && cur + |chunks[0]| <= |buffer| && buffer[..cur] + Flatten(chunks) <= s
    ensures var landed, n := Landed(buffer, cur, chunks[0]), cur + |chunks[0]|;
            buffer[..cur] + Flatten(chunks) == landed[..n] + Flatten(chunks[1..]) && landed[..n] <= s
  {
    hide Landed;
    var landed, n := Landed(buffer, cur, chunks[0]), cur + |chunks[0]|;
    assert buffer[..cur] + Flatten(chunks) == landed[..n] + Flatten(chunks[1..]);
    assert landed[..n] == (landed[..n] + Flatten(chunks[1..]))[..n];
  }

  /** What a run is to do: after every read the frames it completed, up to ten, are out, and every other octet is there. */
  ghost predicate GoesWell(fs: seq<Frame>, buffer: seq<byte>, cur: nat, chunks: seq<seq<byte>>)
    requires Carriers(fs) && cur <= |buffer| == BUFFER_SIZE
    decreases |chunks|
  {
    chunks == [] ||
    (cur + |chunks[0]| <= BUFFER_SIZE
     && var landed, n := Landed(buffer, cur, chunks[0]), cur + |chunks[0]|;
        var o, m := Drain(landed, n, FRAMES_PER_READ), TakenBy(fs, n);
        Took(fs, m, landed[..n], o) && GoesWell(fs[m..], o.buffer, o.cur, chunks[1..]))
  }

  /**
   Exactly when a run goes well, for every stream of messages, masked or not, every form of length and every
   content the array begins with: when no read upsets the handler, as Upset tells from the octets in the array.
   */
  lemma {:induction false} GoesWellIff(fs: seq<Frame>, buffer: seq<byte>, cur: nat, chunks: seq<seq<byte>>)
    requires Carriers(fs) && |buffer| == BUFFER_SIZE && cur <= BUFFER_SIZE && buffer[..cur] + Flatten(chunks) <= WireAll(fs)
    requires ReadsFit(buffer, cur, chunks)
    ensures GoesWell(fs, buffer, cur, chunks) <==> SoundReads(fs, buffer, cur, chunks)
    decreases |chunks|
  {
    hide Drain, Carrier, Upsets, WholeFrames, Kept, Landed, MessagesIn, WireAll, Flatten, Took;
    if chunks != [] {
      var landed, n := Landed(buffer, cur, chunks[0]), cur + |chunks[0]|;
      var m := TakenBy(fs, n);
      WholeFits(fs, m, n);
      LandedPrefix(buffer, cur, chunks, WireAll(fs));
      DrainTakes(fs, landed, n, FRAMES_PER_READ);
      if !Upsets(fs, landed, n, FRAMES_PER_READ) {
        FirstReadTakes(fs, landed, n, Flatten(chunks[1..]));
        GoesWellIff(fs[m..], Kept(fs, landed, n, FRAMES_PER_READ), n - |WireAll(fs[..m])|, chunks[1..]);
      }
    }
  }

  /** Reads that end in no bad cut are sound, whatever the array held at first. */
  lemma {:induction false} GoodReadsAreSound(fs: seq<Frame>, buffer: seq<byte>, cur: nat, chunks: seq<seq<byte>>)
    requires Carriers(fs) && |buffer| == BUFFER_SIZE && cur <= BUFFER_SIZE && buffer[..cur] + Flatten(chunks) <= WireAll(fs)
    requires GoodReads(fs, cur, chunks)
    ensures SoundReads(fs, buffer, cur, chunks)
    decreases |chunks|
  {
    hide Drain, Carrier, BadCut, Upsets, WholeFrames, Kept, Landed, MessagesIn, WireAll, Flatten;
    if chunks != [] {
      var landed, n := Landed(buffer, cur, chunks[0]), cur + |chunks[0]|;
      var m := TakenBy(fs, n);
      WholeFits(fs, m, n);
      LandedPrefix(buffer, cur, chunks, WireAll(fs));
      GoodCutIsSound(fs, landed, n, FRAMES_PER_READ);
      FirstReadTakes(fs, landed, n, Flatten(chunks[1..]));
      GoodReadsAreSound(fs[m..], Kept(fs, landed, n, FRAMES_PER_READ), n - |WireAll(fs[..m])|, chunks[1..]);
    }
  }

  /** With short lengths, and length fields before the last four octets, the condition is on the positions of the cuts alone. */
  lemma {:induction false} SoundReadsAreGood(fs: seq<Frame>, buffer: seq<byte>, cur: nat, chunks: seq<seq<byte>>)
    requires Carriers(fs) && ShortForms(fs) && LengthsShow(fs)
    requires |buffer| == BUFFER_SIZE && cur <= BUFFER_SIZE && buffer[..cur] + Flatten(chunks) <= WireAll(fs)
    requires SoundReads(fs, buffer, cur, chunks)
    ensures GoodReads(fs, cur, chunks)
    decreases |chunks|
  {
    hide Drain, Carrier, BadCut, Upsets, WholeFrames, Kept, Landed, MessagesIn, WireAll, Flatten, Frame.Masked;
    if chunks != [] {
      var landed, n := Landed(buffer, cur, chunks[0]), cur + |chunks[0]|;
      var m := TakenBy(fs, n);
      WholeFits(fs, m, n);
      LandedPrefix(buffer, cur, chunks, WireAll(fs));
      if WholeFrames(fs, n) < FRAMES_PER_READ && BadCut(fs, n) {
        BadCutUpsets(fs, landed, n, FRAMES_PER_READ);
      }
      FirstReadTakes(fs, landed, n, Flatten(chunks[1..]));
      SoundReadsAreGood(fs[m..], Kept(fs, landed, n, FRAMES_PER_READ), n - |WireAll(fs[..m])|, chunks[1..]);
    }
  }

  /** When the masked messages' length fields stand before the last four octets, a run goes well or faults, and nothing else. */
  lemma {:induction false} RunWaitsIff(fs: seq<Frame>, buffer: seq<byte>, cur: nat, chunks: seq<seq<byte>>)
    requires Carriers(fs) && LengthsShow(fs)
    requires |buffer| == BUFFER_SIZE && cur <= BUFFER_SIZE && buffer[..cur] + Flatten(chunks) <= WireAll(fs)
    requires ReadsFit(buffer, cur, chunks)
    ensures Run(buffer, cur, chunks).Waiting? <==> SoundReads(fs, buffer, cur, chunks)
    ensures Run(buffer, cur, chunks).Fault? <==> !SoundReads(fs, buffer, cur, chunks)
    decreases |chunks|
  {
    hide Drain, Carrier, Upsets, WholeFrames, Kept, Landed, MessagesIn, WireAll, Flatten, Frame.Masked;
    if chunks != [] {
      var landed, n := Landed(buffer, cur, chunks[0]), cur + |chunks[0]|;
      var m := TakenBy(fs, n);
      WholeFits(fs, m, n);
      LandedPrefix(buffer, cur, chunks, WireAll(fs));
      if Upsets(fs, landed, n, FRAMES_PER_READ) {
        DrainFaults(fs, landed, n, FRAMES_PER_READ);
      } else {
        FirstReadTakes(fs, landed, n, Flatten(chunks[1..]));
        RunWaitsIff(fs[m..], Kept(fs, landed, n, FRAMES_PER_READ), n - |WireAll(fs[..m])|, chunks[1..]);
      }
    }
  }

  /** And without 64-bit lengths which of the two is settled by where the reads end. */
  lemma RunWaitsIffGood(fs: seq<Frame>, buffer: seq<byte>, cur: nat, chunks: seq<seq<byte>>)
    requires Carriers(fs) && LengthsShow(fs) && ShortForms(fs)
    requires |buffer| == BUFFER_SIZE && cur <= BUFFER_SIZE && buffer[..cur] + Flatten(chunks) <= WireAll(fs)
    requires ReadsFit(buffer, cur, chunks)
    ensures Run(buffer, cur, chunks).Waiting? <==> GoodReads(fs, cur, chunks)
    ensures Run(buffer, cur, chunks).Fault? <==> !GoodReads(fs, cur, chunks)
  {
    hide Run, ReadsFit, GoodReads, SoundReads, Carrier, Frame.Masked, WireAll, Flatten;
    RunWaitsIff(fs, buffer, cur, chunks);
    if SoundReads(fs, buffer, cur, chunks) {
      SoundReadsAreGood(fs, buffer, cur, chunks);
    }
    if GoodReads(fs, cur, chunks) {
      GoodReadsAreSound(fs, buffer, cur, chunks);
    }
  }

  /** For unmasked frames without 64-bit lengths it is enough that the reads fit. */
  lemma {:induction false} UnmaskedReadsAreGood(fs: seq<Frame>, buffer: seq<byte>, cur: nat, chunks: seq<seq<byte>>)
    requires Carriers(fs) && ShortForms(fs) && (forall i :: 0 <= i < |fs| ==> !fs[i].Masked())
    requires |buffer| == BUFFER_SIZE && cur <= BUFFER_SIZE && buffer[..cur] + Flatten(chunks) <= WireAll(fs)
    requires ReadsFit(buffer, cur, chunks)
    ensures SoundReads(fs, buffer, cur, chunks)
    decreases |chunks|
  {
    hide Drain, Carrier, BadCut, Upsets, WholeFrames, Kept, Landed, MessagesIn, WireAll, Flatten, Frame.Masked;
    if chunks != [] {
      var landed, n := Landed(buffer, cur, chunks[0]), cur + |chunks[0]|;
      var m := TakenBy(fs, n);
      WholeFits(fs, m, n);
      LandedPrefix(buffer, cur, chunks, WireAll(fs));
      UnmaskedHasNoBadCut(fs, n);
      GoodCutIsSound(fs, landed, n, FRAMES_PER_READ);
      FirstReadTakes(fs, landed, n, Flatten(chunks[1..]));
      UnmaskedReadsAreGood(fs[m..], Kept(fs, landed, n, FRAMES_PER_READ), n - |WireAll(fs[..m])|, chunks[1..]);
    }
  }

  lemma TookMore(fs: seq<Frame>, m: nat, first: Outcome, more: seq<byte>, o: Outcome)
    requires Carriers(fs) && m <= |fs| && first.Waiting? && o.Waiting? && first.cur <= |first.buffer|
    requires first.posted == MessagesIn(fs[..m])
    requires |o.posted| <= |fs| - m && Took(fs[m..], |o.posted|, first.buffer[..first.cur] + more, o)
    ensures Took(fs, m + |o.posted|, WireAll(fs[..m]) + (first.buffer[..first.cur] + more), Prepend(first.posted, o))
  {
    hide Carrier, WireAll, MessagesIn;
    var k := |o.posted|;
    var left := o.buffer[..o.cur];
    assert fs[..m + k] == fs[..m] + fs[m..][..k];
    MessagesConcat(fs[..m], fs[m..][..k]);
    WireConcat(fs[..m], fs[m..][..k]);
    assert WireAll(fs[..m]) + WireAll(fs[m..][..k]) + left == WireAll(fs[..m]) + (WireAll(fs[m..][..k]) + left);
  }

  lemma {:induction false} MessagesConcat(a: seq<Frame>, b: seq<Frame>)
    requires Carriers(a) && Carriers(b)
    ensures MessagesIn(a + b) == MessagesIn(a) + MessagesIn(b)
  {
    hide Carrier, MessageOf;
    if a == [] {
      assert a + b == b;
    } else {
      assert (a + b)[1..] == a[1..] + b;
      MessagesConcat(a[1..], b);
    }
  }

  lemma {:induction false} WireConcat(a: seq<Frame>, b: seq<Frame>)
    ensures WireAll(a + b) == WireAll(a) + WireAll(b)
  {
    hide Frame.Wire;
    if a == [] {
      assert a + b == b;
    } else {
      assert (a + b)[1..] == a[1..] + b;
      WireConcat(a[1..], b);
    }
  }

  /**
   Over any run of sound reads the handlers never fault or stop: the messages posted are those of the first
   frames, in order and once each, and the octets of those frames followed by what the array holds are
   exactly the octets received.
   */
  lemma {:induction false} Reassembly(fs: seq<Frame>, buffer: seq<byte>, cur: nat, chunks: seq<seq<byte>>)
    requires Carriers(fs) && |buffer| == BUFFER_SIZE && cur <= BUFFER_SIZE
    requires buffer[..cur] + Flatten(chunks) <= WireAll(fs) && SoundReads(fs, buffer, cur, chunks)
    ensures var o := Run(buffer, cur, chunks);
            && o.Waiting? && |o.posted| <= |fs| && Took(fs, |o.posted|, buffer[..cur] + Flatten(chunks), o)
            && (cur < BUFFER_SIZE ==> o.cur < BUFFER_SIZE)
    decreases |chunks|
  {
    hide Drain, Carrier, Upsets, WholeFrames, Kept, Landed, MessagesIn, WireAll, Flatten;
    if chunks == [] {
      NoChunks();
      assert buffer[..cur] + Flatten(chunks) == buffer[..cur];
      TookNothing(fs, buffer, cur);
    } else {
      var later := chunks[1..];
      var landed, n := Landed(buffer, cur, chunks[0]), cur + |chunks[0]|;
      LandedPrefix(buffer, cur, chunks, WireAll(fs));
      FirstReadTakes(fs, landed, n, Flatten(later));
      var first, m := Drain(landed, n, FRAMES_PER_READ), TakenBy(fs, n);
      Reassembly(fs[m..], first.buffer, first.cur, later);
      TookMore(fs, m, first, Flatten(later), Run(first.buffer, first.cur, later));
      assert WireAll(fs[..m]) + (first.buffer[..first.cur] + Flatten(later)) == landed[..n] + Flatten(later);
    }
  }

  lemma NoChunks()
    ensures Flatten<byte>([]) == []
  {
  }

  /** The first of a run of callbacks, and what it leaves of the stream. */
  lemma FirstReadTakes(fs: seq<Frame>, landed: seq<byte>, n: nat, more: seq<byte>)
    requires Carriers(fs) && |landed| == BUFFER_SIZE && n <= BUFFER_SIZE && landed[..n] + more <= WireAll(fs)
    requires !Upsets(fs, landed, n, FRAMES_PER_READ)
    ensures var first, m := Drain(landed, n, FRAMES_PER_READ), TakenBy(fs, n);
            && Took(fs, m, landed[..n], first)
            && first.buffer == Kept(fs, landed, n, FRAMES_PER_READ)
            && first.cur == n - |WireAll(fs[..m])| < BUFFER_SIZE
            && first.buffer[..first.cur] + more <= WireAll(fs[m..])
  {
    hide Drain, Carrier, Upsets, WholeFrames, Kept, MessagesIn, WireAll;
    assert landed[..n] == (landed[..n] + more)[..n];
    DrainTakes(fs, landed, n, FRAMES_PER_READ);
    var first, m := Drain(landed, n, FRAMES_PER_READ), TakenBy(fs, n);
    assert fs == fs[..m] + fs[m..];
    WireConcat(fs[..m], fs[m..]);
    assert |first.buffer[..first.cur]| == first.cur;
    RestFits(WireAll(fs[..m]), WireAll(fs[m..]), first.buffer[..first.cur], more);
    if n == BUFFER_SIZE {
      FullArrayHoldsAFrame(fs, n);
    }
  }

  lemma FullArrayHoldsAFrame(fs: seq<Frame>, n: nat)
    requires Carriers(fs) && BUFFER_SIZE <= n <= |WireAll(fs)|
    ensures TakenBy(fs, n) >= 1 && |WireAll(fs[..TakenBy(fs, n)])| > 0
  {
    hide Frame.Wire;
    assert fs != [];
    CarrierShape(fs[0]);
    var m := TakenBy(fs, n);
    assert fs[..m][0] == fs[0];
  }

  lemma RestFits(a: seq<byte>, b: seq<byte>, held: seq<byte>, more: seq<byte>)
    requires a + held + more <= a + b
    ensures held + more <= b
  {
    assert held + more == (a + held + more)[|a|..];
    assert b == (a + b)[|a|..];
  }

  // When everything has arrived.

  lemma {:induction false} AllWhole(fs: seq<Frame>, buffer: seq<byte>, tries: nat)
    requires Carriers(fs) && |WireAll(fs)| <= |buffer| == BUFFER_SIZE
    ensures WholeFrames(fs, |WireAll(fs)|) == |fs| && !Upsets(fs, buffer, |WireAll(fs)|, tries)
    decreases |fs|
  {
    hide Frame.Wire, Carrier, AfterFrame, Upset;
    if fs != [] {
      AllWhole(fs[1..], AfterFrame(fs[0], buffer, |WireAll(fs)|), if tries > 0 then tries - 1 else 0);
    }
  }

  lemma {:induction false} WireNotEmpty(fs: seq<Frame>)
    requires Carriers(fs)
    ensures WireAll(fs) == [] <==> fs == []
  {
    if fs != [] {
      CarrierShape(fs[0]);
    }
  }

  /** Once the whole stream has been read, every message has been posted exactly when the array is empty. */
  lemma PostedAllIffEmpty(fs: seq<Frame>, buffer: seq<byte>, chunks: seq<seq<byte>>)
    requires Carriers(fs) && |buffer| == BUFFER_SIZE && Flatten(chunks) == WireAll(fs) && SoundReads(fs, buffer, 0, chunks)
    ensures var o := Run(buffer, 0, chunks);
            o.Waiting? && (o.posted == MessagesIn(fs) <==> o.cur == 0)
  {
    hide Carrier, SoundReads, Run;
    assert buffer[..0] + Flatten(chunks) == WireAll(fs);
    Reassembly(fs, buffer, 0, chunks);
    var o := Run(buffer, 0, chunks);
    LeftOver(fs, |o.posted|, o.buffer[..o.cur]);
    assert |o.buffer[..o.cur]| == o.cur;
    assert fs[..|fs|] == fs;
  }

  lemma LeftOver(fs: seq<Frame>, m: nat, left: seq<byte>)
    requires Carriers(fs) && m <= |fs| && WireAll(fs[..m]) + left == WireAll(fs)
    ensures left == [] <==> m == |fs|
    ensures left == WireAll(fs[m..])
  {
    hide Carrier, WireAll;
    assert fs == fs[..m] + fs[m..];
    WireConcat(fs[..m], fs[m..]);
    assert left == (WireAll(fs[..m]) + left)[|WireAll(fs[..m])|..];
    assert WireAll(fs[m..]) == (WireAll(fs[..m]) + WireAll(fs[m..]))[|WireAll(fs[..m])|..];
    WireNotEmpty(fs[m..]);
  }

  lemma {:induction false} RunSnoc(buffer: seq<byte>, cur: nat, chunks: seq<seq<byte>>, last: seq<byte>)
    requires cur <= |buffer|
    requires var o := Run(buffer, cur, chunks); o.Waiting? && o.cur <= |o.buffer|
    ensures var o := Run(buffer, cur, chunks);
            Run(buffer, cur, chunks + [last]) == Prepend(o.posted, Run(o.buffer, o.cur, [last]))
    decreases |chunks|
  {
    hide Drain, Landed;
    if chunks == [] {
      assert chunks + [last] == [last];
      WsConnection.NothingPosted(Run(buffer, cur, [last]));
    } else {
      assert (chunks + [last])[1..] == chunks[1..] + [last];
      var first := Drain(Landed(buffer, cur, chunks[0]), cur + |chunks[0]|, FRAMES_PER_READ);
      RunSnoc(first.buffer, first.cur, chunks[1..], last);
      var o := Run(first.buffer, first.cur, chunks[1..]);
      WsConnection.PrependTwice(first.posted, o.posted, Run(o.buffer, o.cur, [last]));
    }
  }

  /** A callback that finds all the frames still to come takes them all exactly when they are at most ten. */
  lemma LastCallback(fs: seq<Frame>, landed: seq<byte>, n: nat)
    requires Carriers(fs) && |landed| == BUFFER_SIZE && n <= BUFFER_SIZE && landed[..n] == WireAll(fs)
    ensures var o := Drain(landed, n, FRAMES_PER_READ);
            && o.Waiting? && o.cur <= |o.buffer|
            && o.posted == MessagesIn(fs[..Min(FRAMES_PER_READ, |fs|)])
  {
    hide Carrier, Drain, WireAll, WholeFrames, Upsets, Kept;
    AllWhole(fs, landed, FRAMES_PER_READ);
    assert |landed[..n]| == n;
    DrainTakes(fs, landed, n, FRAMES_PER_READ);
  }

  lemma TookLeaves(fs: seq<Frame>, m: nat, received: seq<byte>, o: Outcome)
    requires Carriers(fs) && m <= |fs| && Took(fs, m, received, o)
    ensures o.Waiting? && |o.buffer| == BUFFER_SIZE && o.cur <= BUFFER_SIZE && o.posted == MessagesIn(fs[..m])
    ensures WireAll(fs[..m]) + o.buffer[..o.cur] == received
  {
  }

  lemma LastReadPosts(fs: seq<Frame>, before: Outcome, m: nat, received: seq<byte>, last: seq<byte>)
    requires Carriers(fs) && m <= |fs| && Took(fs, m, received, before) && received + last == WireAll(fs)
    requires before.cur + |last| <= BUFFER_SIZE
    ensures var o := Run(before.buffer, before.cur, [last]);
            o.Waiting? && o.posted == MessagesIn(fs[m..][..Min(FRAMES_PER_READ, |fs| - m)])
  {
    hide Carrier, Run, Drain, WireAll, MessagesIn, Landed, Took;
    TookLeaves(fs, m, received, before);
    var held := before.buffer[..before.cur];
    var landed, n := Landed(before.buffer, before.cur, last), before.cur + |last|;
    Regroup(WireAll(fs[..m]), held, last);
    LeftOver(fs, m, landed[..n]);
    LastCallback(fs[m..], landed, n);
    OneRead(before.buffer, before.cur, last);
  }

  /** A read after which the whole stream is in: every message has been posted exactly when at most ten were still to come. */
  lemma LastReadDecides(fs: seq<Frame>, buffer: seq<byte>, chunks: seq<seq<byte>>, last: seq<byte>)
    requires Carriers(fs) && |buffer| == BUFFER_SIZE && Flatten(chunks) + last == WireAll(fs) && SoundReads(fs, buffer, 0, chunks)
    requires var before := Run(buffer, 0, chunks); before.Waiting? && before.cur + |last| <= |before.buffer| == BUFFER_SIZE
    ensures var before := Run(buffer, 0, chunks); var after := Run(buffer, 0, chunks + [last]);
            after.Waiting? && (after.posted == MessagesIn(fs) <==> |fs| - |before.posted| <= 10)
  {
    hide Carrier, SoundReads, Run, WireAll, MessagesIn, Flatten;
    var received := Flatten(chunks);
    assert received == (received + last)[..|received|];
    assert buffer[..0] + received == received;
    Reassembly(fs, buffer, 0, chunks);
    var before := Run(buffer, 0, chunks);
    var m := |before.posted|;
    RunSnoc(buffer, 0, chunks, last);
    LastReadPosts(fs, before, m, received, last);
    AddedUp(fs, m, Min(FRAMES_PER_READ, |fs| - m));
  }

  lemma AddedUp(fs: seq<Frame>, m: nat, taken: nat)
    requires Carriers(fs) && m + taken <= |fs|
    ensures MessagesIn(fs[..m]) + MessagesIn(fs[m..][..taken]) == MessagesIn(fs) <==> m + taken == |fs|
  {
    hide Carrier, MessagesIn;
    MessagesConcat(fs[..m], fs[m..][..taken]);
    TakeTwice(fs, m, taken);
    if m + taken == |fs| {
      assert fs[..m + taken] == fs;
    } else {
      assert |MessagesIn(fs[..m + taken])| < |MessagesIn(fs)|;
    }
  }

  lemma OneRead(buffer: seq<byte>, cur: nat, chunk: seq<byte>)
    requires cur + |chunk| <= |buffer|
    requires var o := Drain(Landed(buffer, cur, chunk), cur + |chunk|, FRAMES_PER_READ); o.Waiting? && o.cur <= |o.buffer|
    ensures Run(buffer, cur, [chunk]) == Drain(Landed(buffer, cur, chunk), cur + |chunk|, FRAMES_PER_READ)
  {
    hide Drain, Landed;
    var o := Drain(Landed(buffer, cur, chunk), cur + |chunk|, FRAMES_PER_READ);
    assert [chunk][1..] == [];
    assert Run(o.buffer, o.cur, []) == Waiting(o.buffer, o.cur, []);
    assert o.posted + [] == o.posted;
  }

  /** Ten whole frames in the array are ten messages posted: no fewer, and no more. */
  lemma TenACallback(fs: seq<Frame>, landed: seq<byte>, n: nat)
    requires Carriers(fs) && |landed| == BUFFER_SIZE && n <= BUFFER_SIZE && landed[..n] == WireAll(fs)
    ensures var o := Drain(landed, n, FRAMES_PER_READ);
            && o.Waiting? && o.posted == MessagesIn(fs[..Min(10, |fs|)])
            && (|fs| <= 10 ==> o.posted == MessagesIn(fs))
  {
    hide Carrier, Drain, WireAll, MessagesIn;
    LastCallback(fs, landed, n);
    assert |fs| <= 10 ==> fs[..Min(10, |fs|)] == fs;
  }

  /**
   Behind a frame that carries no message - a ping, a pong, a fragment - nothing is ever delivered: whatever follows,
   and however it is read, the handlers post nothing and keep every octet.
   */
  lemma {:induction false} BlockedForEver(f: Frame, buffer: seq<byte>, cur: nat, chunks: seq<seq<byte>>)
    requires WholeAt(f, buffer, cur) && Blocks(f) && ReadsFit(buffer, cur, chunks)
    ensures var o := Run(buffer, cur, chunks);
            o.Waiting? && o.posted == [] && o.cur == cur + |Flatten(chunks)| <= |o.buffer|
            && o.buffer[..o.cur] == buffer[..cur] + Flatten(chunks)
    decreases |chunks|
  {
    hide Drain, Frame.Wire, Frame.WellFormed, Blocks, Opened, Landed, Flatten;
    if chunks == [] {
      NoChunks();
      assert buffer[..cur] + [] == buffer[..cur];
    } else {
      var landed, n := Landed(buffer, cur, chunks[0]), cur + |chunks[0]|;
      assert landed[..n] == buffer[..cur] + chunks[0];
      assert f.Wire() <= landed;
      BlockedCallback(f, landed, n, FRAMES_PER_READ);
      BlockedForEver(f, landed, n, chunks[1..]);
      FlattenFirst(chunks);
      WsConnection.NothingPosted(Run(landed, n, chunks[1..]));
      Regroup(buffer[..cur], chunks[0], Flatten(chunks[1..]));
    }
  }

  lemma FlattenFirst<T>(parts: seq<seq<T>>)
    requires parts != []
    ensures Flatten(parts) == parts[0] + Flatten(parts[1..])
  {
  }

  lemma FirstMessages(fs: seq<Frame>, m: nat)
    requires Carriers(fs) && m <= |fs|
    ensures MessagesIn(fs[..m]) <= MessagesIn(fs)
  {
    hide Carrier, MessagesIn;
    MessagesConcat(fs[..m], fs[m..]);
    assert fs == fs[..m] + fs[m..];
  }
}
