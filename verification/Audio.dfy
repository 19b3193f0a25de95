/**
 The sound buffer of the native platform (abstract-machine/am/src/native/native-audio.c): a ring buffer
 filled by the program and drained by the sound callback, whose operations are taken as atomic steps.
 */
module Audio {

  import opened Common

  const SBUF_SIZE_MAX: nat := 65536

  // ---------------------------------------------------------------- the queue

  /** An event at the queue: the program offers bytes, or the callback asks for some. */
  datatype Event = Write(data: seq<Byte>) | Play(len: nat)

  function Min(a: nat, b: nat): nat
  {
    if a < b then a else b
  }

  /** The bytes that a write adds, and the bytes that a callback takes. */
  function Taken(q: seq<Byte>, e: Event): seq<Byte>
    requires |q| <= SBUF_SIZE_MAX
  {
    match e
    case Write(data) => data[..Min(|data|, SBUF_SIZE_MAX - |q|)]
    case Play(len) => q[..Min(len, |q|)]
  }

  function Step(q: seq<Byte>, e: Event): (r: seq<Byte>)
    requires |q| <= SBUF_SIZE_MAX
    ensures |r| <= SBUF_SIZE_MAX
  {
    match e
    case Write(_) => q + Taken(q, e)
    case Play(len) => q[Min(len, |q|)..]
  }

  function Final(q: seq<Byte>, events: seq<Event>): (r: seq<Byte>)
    requires |q| <= SBUF_SIZE_MAX
    ensures |r| <= SBUF_SIZE_MAX
    decreases |events|
  {
    if events == [] then q else Final(Step(q, events[0]), events[1..])
  }

  /** All bytes accepted over a run. */
  function Accepted(q: seq<Byte>, events: seq<Event>): seq<Byte>
    requires |q| <= SBUF_SIZE_MAX
    decreases |events|
  {
    if events == [] then []
    else
      var rest := Accepted(Step(q, events[0]), events[1..]);
      if events[0].Write? then Taken(q, events[0]) + rest else rest
  }

  /** All bytes of the queue that the callbacks of a run delivered. */
  function Played(q: seq<Byte>, events: seq<Event>): seq<Byte>
    requires |q| <= SBUF_SIZE_MAX
    decreases |events|
  {
    if events == [] then []
    else
      var rest := Played(Step(q, events[0]), events[1..]);
      if events[0].Play? then Taken(q, events[0]) + rest else rest
  }

  /** What one callback hands to the sound device: the queued bytes it takes, filled up with silence. */
  function Heard(q: seq<Byte>, len: nat): (r: seq<Byte>)
    requires |q| <= SBUF_SIZE_MAX
    ensures |r| == len
  {
    q[..Min(len, |q|)] + Repeat<Byte>(0, len - Min(len, |q|))
  }

  /** The outputs of the callbacks of a run: real bytes, filled up with silence. */
  function Outputs(q: seq<Byte>, events: seq<Event>): seq<seq<Byte>>
    requires |q| <= SBUF_SIZE_MAX
    decreases |events|
  {
    if events == [] then []
    else
      var rest := Outputs(Step(q, events[0]), events[1..]);
      if events[0].Write? then rest
      else [Heard(q, events[0].len)] + rest
  }

  /**
   Nothing is lost, invented or reordered over a run: what was queued and accepted is what was played
   followed by what is still queued.
   */
  lemma {:induction false} Conservation(q: seq<Byte>, events: seq<Event>)
    requires |q| <= SBUF_SIZE_MAX
    ensures q + Accepted(q, events) == Played(q, events) + Final(q, events)
    decreases |events|
  {
    if events == [] {
      Assoc(q, [], []);
    } else {
      var e, next := events[0], Step(q, events[0]);
      Conservation(next, events[1..]);
      var a, p, f := Accepted(next, events[1..]), Played(next, events[1..]), Final(next, events[1..]);
      RunFirst(q, events);
      StepKeeps(q, e);
      hide Final, Accepted, Played, Taken, Step;
      if e.Write? {
        Assoc(q, Taken(q, e), a);
      } else {
        Assoc(Taken(q, e), next, a);
        Assoc(Taken(q, e), p, f);
      }
    }
  }

  lemma StepKeeps(q: seq<Byte>, e: Event)
    requires |q| <= SBUF_SIZE_MAX
    ensures if e.Write? then Step(q, e) == q + Taken(q, e) else q == Taken(q, e) + Step(q, e)
  {
  }

  /**
   What one event amounts to: a write is accepted whole when it fits into the 65536 bytes and fills the queue
   otherwise; a callback takes all it asks for when so much is queued and empties the queue otherwise. The first bytes
   go first, and what a callback does not get is silence.
   */
  lemma Amounts(q: seq<Byte>, data: seq<Byte>, len: nat)
    requires |q| <= 65536
    ensures Step(q, Write(data)) == if |q| + |data| <= 65536 then q + data else q + data[..65536 - |q|]
    ensures Step(q, Play(len)) == if len <= |q| then q[len..] else []
    ensures |Heard(q, len)| == len
    ensures forall i :: 0 <= i < len ==> Heard(q, len)[i] == if i < |q| then q[i] else 0
  {
    assert data[..|data|] == data && q[|q|..] == [];
  }

  lemma RunFirst(q: seq<Byte>, events: seq<Event>)
    requires |q| <= SBUF_SIZE_MAX && events != []
    ensures var e, next := events[0], Step(q, events[0]);
            && Final(q, events) == Final(next, events[1..])
            && Accepted(q, events) == (if e.Write? then Taken(q, e) + Accepted(next, events[1..]) else Accepted(next, events[1..]))
            && Played(q, events) == (if e.Play? then Taken(q, e) + Played(next, events[1..]) else Played(next, events[1..]))
  {
    hide Taken, Step;
  }

  lemma Assoc(a: seq<Byte>, b: seq<Byte>, c: seq<Byte>)
    ensures (a + b) + c == a + (b + c)
    ensures [] + a == a && a + [] == a
  {
  }

  /** From an empty queue, the bytes played are a prefix of the bytes accepted. */
  lemma PlayedIsPrefix(events: seq<Event>)
    ensures Played([], events) <= Accepted([], events)
  {
    Conservation([], events);
    assert [] + Accepted([], events) == Accepted([], events);
  }

  /** A run of callbacks only. */
  function Plays(lens: seq<nat>): (events: seq<Event>)
    ensures |events| == |lens| && forall i :: 0 <= i < |lens| ==> events[i] == Play(lens[i])
  {
    seq(|lens|, i requires 0 <= i < |lens| => Play(lens[i]))
  }

  function Sum(lens: seq<nat>): nat
  {
    if lens == [] then 0 else Sum(lens[..|lens| - 1]) + lens[|lens| - 1]
  }

  lemma PlaysSnoc(lens: seq<nat>, len: nat)
    ensures Plays(lens + [len]) == Plays(lens) + [Play(len)] && Sum(lens + [len]) == Sum(lens) + len
  {
    assert (lens + [len])[..|lens|] == lens;
  }

  /** One more event at the end of a run. */
  lemma {:induction false} RunSnoc(q: seq<Byte>, events: seq<Event>, e: Event)
    requires |q| <= SBUF_SIZE_MAX
    ensures Final(q, events + [e]) == Step(Final(q, events), e)
    ensures Outputs(q, events + [e]) == Outputs(q, events) + Outputs(Final(q, events), [e])
    decreases |events|
  {
    if events != [] {
      assert (events + [e])[0] == events[0] && (events + [e])[1..] == events[1..] + [e];
      RunSnoc(Step(q, events[0]), events[1..], e);
    }
  }

  /** Callbacks drain the queue by as much as they ask for, until it is empty. */
  lemma {:induction false} Drained(q: seq<Byte>, lens: seq<nat>)
    requires |q| <= SBUF_SIZE_MAX
    ensures |Final(q, Plays(lens))| == if Sum(lens) <= |q| then |q| - Sum(lens) else 0
  {
    if lens != [] {
      var init, len := lens[..|lens| - 1], lens[|lens| - 1];
      Drained(q, init);
      assert lens == init + [len];
      PlaysSnoc(init, len);
      RunSnoc(q, Plays(init), Play(len));
    }
  }

  lemma RunNone(q: seq<Byte>)
    requires |q| <= SBUF_SIZE_MAX
    ensures Final(q, []) == q && Outputs(q, []) == []
  {
  }

  lemma OneOutput(q: seq<Byte>, len: nat)
    requires |q| <= SBUF_SIZE_MAX
    ensures Outputs(q, [Play(len)]) == [Heard(q, len)]
  {
    assert Outputs(Step(q, Play(len)), []) == [];
  }

  // ---------------------------------------------------------------- the ring

  /** The queue stored in a ring from `tail` on. */
  function Ring(buf: seq<Byte>, tail: nat, count: nat): seq<Byte>
    requires |buf| == SBUF_SIZE_MAX && tail < SBUF_SIZE_MAX && count <= SBUF_SIZE_MAX
  {
    if tail + count <= SBUF_SIZE_MAX then buf[tail..tail + count]
    else buf[tail..] + buf[..tail + count - SBUF_SIZE_MAX]
  }

  /** The remainder modulo the size, for positions that have wrapped at most once. */
  function Wrap(n: nat): nat
    requires n < 2 * SBUF_SIZE_MAX
  {
    if n < SBUF_SIZE_MAX then n else n - SBUF_SIZE_MAX
  }

  /** The i-th queued byte is i positions behind the tail, modulo the size. */
  lemma RingAt(buf: seq<Byte>, tail: nat, count: nat, i: nat)
    requires |buf| == SBUF_SIZE_MAX && tail < SBUF_SIZE_MAX && i < count <= SBUF_SIZE_MAX
    ensures |Ring(buf, tail, count)| == count && Ring(buf, tail, count)[i] == buf[Wrap(tail + i)]
  {
  }

  /** Taking n bytes from the front leaves the ring that starts n positions later. */
  lemma RingDrop(buf: seq<Byte>, tail: nat, count: nat, n: nat)
    requires |buf| == SBUF_SIZE_MAX && tail < SBUF_SIZE_MAX && n <= count <= SBUF_SIZE_MAX
    ensures Ring(buf, tail, count)[..n] == Ring(buf, tail, n)
    ensures Ring(buf, tail, count)[n..] == Ring(buf, Wrap(tail + n), count - n)
  {
    hide Ring;
    var q, front, back := Ring(buf, tail, count), Ring(buf, tail, n), Ring(buf, Wrap(tail + n), count - n);
    RingLength(buf, tail, count);
    RingLength(buf, tail, n);
    RingLength(buf, Wrap(tail + n), count - n);
    forall i: nat | i < n ensures q[i] == front[i] {
      RingAt(buf, tail, count, i);
      RingAt(buf, tail, n, i);
    }
    forall i: nat | i < count - n ensures q[n + i] == back[i] {
      RingAt(buf, tail, count, n + i);
      RingAt(buf, Wrap(tail + n), count - n, i);
    }
    assert q[..n] == front;
    assert q[n..] == back;
  }

  /** The buffer after copying bytes in from `head` on, wrapping at the end. */
  function Store(buf: seq<Byte>, head: nat, data: seq<Byte>): (r: seq<Byte>)
    requires |buf| == SBUF_SIZE_MAX && head < SBUF_SIZE_MAX && |data| <= SBUF_SIZE_MAX
    ensures |r| == SBUF_SIZE_MAX
  {
    if |data| + head < SBUF_SIZE_MAX then buf[..head] + data + buf[head + |data|..]
    else data[SBUF_SIZE_MAX - head..] + buf[|data| - (SBUF_SIZE_MAX - head)..head] + data[..SBUF_SIZE_MAX - head]
  }

  lemma StoreAt(buf: seq<Byte>, head: nat, data: seq<Byte>, j: nat)
    requires |buf| == SBUF_SIZE_MAX && head < SBUF_SIZE_MAX && |data| <= SBUF_SIZE_MAX && j < SBUF_SIZE_MAX
    ensures Store(buf, head, data)[j] ==
            if head <= j < head + |data| then data[j - head]
            else if j + SBUF_SIZE_MAX < head + |data| then data[j + SBUF_SIZE_MAX - head]
            else buf[j]
  {
  }

  /** Storing bytes behind the last one appends them to the queue. */
  lemma RingAppend(buf: seq<Byte>, tail: nat, count: nat, data: seq<Byte>)
    requires |buf| == SBUF_SIZE_MAX && tail < SBUF_SIZE_MAX && count + |data| <= SBUF_SIZE_MAX
    ensures Ring(Store(buf, Wrap(tail + count), data), tail, count + |data|) == Ring(buf, tail, count) + data
  {
    var buf2, q := Store(buf, Wrap(tail + count), data), Ring(buf, tail, count);
    var left := Ring(buf2, tail, count + |data|);
    forall i: nat | i < count + |data| ensures left[i] == (q + data)[i] {
      AppendAt(buf, tail, count, data, i);
    }
    hide Store;
  }

  lemma AppendAt(buf: seq<Byte>, tail: nat, count: nat, data: seq<Byte>, i: nat)
    requires |buf| == SBUF_SIZE_MAX && tail < SBUF_SIZE_MAX && i < count + |data| <= SBUF_SIZE_MAX
    ensures |Ring(Store(buf, Wrap(tail + count), data), tail, count + |data|)| == count + |data|
    ensures |Ring(buf, tail, count)| == count
    ensures Ring(Store(buf, Wrap(tail + count), data), tail, count + |data|)[i] == (Ring(buf, tail, count) + data)[i]
  {
    hide Store, Ring;
    var buf2 := Store(buf, Wrap(tail + count), data);
    RingLength(buf, tail, count);
    RingAt(buf2, tail, count + |data|, i);
    StoreAt(buf, Wrap(tail + count), data, Wrap(tail + i));
    if i < count {
      RingAt(buf, tail, count, i);
    }
  }

  lemma RingLength(buf: seq<Byte>, tail: nat, count: nat)
    requires |buf| == SBUF_SIZE_MAX && tail < SBUF_SIZE_MAX && count <= SBUF_SIZE_MAX
    ensures |Ring(buf, tail, count)| == count
  {
  }

  /** The effect of `memcpy` on a whole array. */
  function Copied(dst: seq<Byte>, to: nat, data: seq<Byte>): seq<Byte>
    requires to + |data| <= |dst|
  {
    dst[..to] + data + dst[to + |data|..]
  }

  lemma CopiedLength(dst: seq<Byte>, to: nat, data: seq<Byte>)
    requires to + |data| <= |dst|
    ensures |Copied(dst, to, data)| == |dst|
  {
  }

  method Memcpy(dst: array<Byte>, to: nat, src: array<Byte>, from: nat, n: nat)
    requires dst != src && to + n <= dst.Length && from + n <= src.Length
    modifies dst
    ensures dst[..] == Copied(old(dst[..]), to, src[from..from + n])
  {
    forall i | 0 <= i < n {
      dst[to + i] := src[from + i];
    }
  }

  method Memset(dst: array<Byte>, to: nat, n: nat)
    requires to + n <= dst.Length
    modifies dst
    ensures dst[..] == Copied(old(dst[..]), to, Repeat<Byte>(0, n))
  {
    forall i | 0 <= i < n {
      dst[to + i] := 0;
    }
  }

  /** Copying n queued bytes and silence behind them makes the stream that the queue prescribes. */
  lemma PlayedThenSilence(buf: seq<Byte>, tail: nat, count: nat, n: nat, stream: seq<Byte>, after: seq<Byte>, len: nat)
    requires |buf| == SBUF_SIZE_MAX && tail < SBUF_SIZE_MAX && count <= SBUF_SIZE_MAX
    requires n == Min(len, count) && len <= |stream| && |Ring(buf, tail, n)| == n
    requires |Copied(stream, 0, Ring(buf, tail, n))| == |stream|
    requires after == if n < len then Copied(Copied(stream, 0, Ring(buf, tail, n)), n, Repeat<Byte>(0, len - n))
                      else Copied(stream, 0, Ring(buf, tail, n))
    ensures |Ring(buf, tail, count)| == count && |after| == |stream|
    ensures after[..len] == Heard(Ring(buf, tail, count), len) && after[len..] == stream[len..]
    ensures Ring(buf, Wrap(tail + n), count - n) == Step(Ring(buf, tail, count), Play(len))
  {
    RingLength(buf, tail, count);
    RingDrop(buf, tail, count, n);
    hide Ring;
    assert Repeat<Byte>(0, 0) == [];
  }

  lemma StoreStraight(buf: seq<Byte>, head: nat, data: seq<Byte>)
    requires |buf| == SBUF_SIZE_MAX && |data| + head < SBUF_SIZE_MAX
    ensures Copied(buf, head, data) == Store(buf, head, data)
  {
  }

  /** Two copies, to the end and to the start, store the data around the end. */
  lemma StoreWrapped(buf: seq<Byte>, head: nat, data: seq<Byte>)
    requires |buf| == SBUF_SIZE_MAX && head < SBUF_SIZE_MAX && |data| <= SBUF_SIZE_MAX <= |data| + head
    ensures Copied(Copied(buf, head, data[..SBUF_SIZE_MAX - head]), 0, data[SBUF_SIZE_MAX - head..]) == Store(buf, head, data)
  {
  }

  /** Two copies, from the end and from the start, fetch the data around the end. */
  lemma FetchWrapped(buf: seq<Byte>, tail: nat, n: nat, stream: seq<Byte>)
    requires |buf| == SBUF_SIZE_MAX && tail < SBUF_SIZE_MAX && n <= SBUF_SIZE_MAX <= n + tail && n <= |stream|
    ensures Copied(Copied(stream, 0, buf[tail..]), SBUF_SIZE_MAX - tail, buf[..n - (SBUF_SIZE_MAX - tail)])
         == Copied(stream, 0, Ring(buf, tail, n))
  {
    var a, b := buf[tail..], buf[..n - (SBUF_SIZE_MAX - tail)];
    assert Ring(buf, tail, n) == a + b;
    hide Ring;
    CopiedTwice(stream, a, b);
  }

  lemma CopiedTwice(dst: seq<Byte>, a: seq<Byte>, b: seq<Byte>)
    requires |a| + |b| <= |dst|
    ensures |Copied(dst, 0, a)| == |dst| && Copied(Copied(dst, 0, a), |a|, b) == Copied(dst, 0, a + b)
  {
    var once := Copied(dst, 0, a);
    assert once[..|a|] == a && once[|a| + |b|..] == dst[|a| + |b|..];
  }

  class AudioBuffer {
    const sbuf: array<Byte>
    var head: nat
    var tail: nat
    var count: nat

    ghost predicate Valid()
      reads this
    {
      && sbuf.Length == SBUF_SIZE_MAX
      && tail < SBUF_SIZE_MAX && count <= SBUF_SIZE_MAX
      && head == (tail + count) % SBUF_SIZE_MAX
    }

    ghost function Queue(): (q: seq<Byte>)
      reads this, sbuf
      requires Valid()
      ensures |q| == count <= SBUF_SIZE_MAX
    {
      Ring(sbuf[..], tail, count)
    }

    constructor ()
      ensures Valid() && Queue() == [] && fresh(sbuf)
    {
      sbuf := new Byte[SBUF_SIZE_MAX](_ => 0);
      head, tail, count := 0, 0, 0;
    }

    /** The reset in `__am_audio_ctrl`. */
    method Reset()
      requires Valid()
      modifies this
      ensures Valid() && Queue() == []
    {
      head, tail, count := 0, 0, 0;
    }

    /** The copies of `audio_play`. */
    method CopyOut(stream: array<Byte>, nread: nat)
      requires Valid() && stream != sbuf && nread <= count && nread <= stream.Length
      modifies this`tail, stream
      ensures stream[..] == Copied(old(stream[..]), 0, Ring(sbuf[..], old(tail), nread))
      ensures tail == Wrap(old(tail) + nread)
    {
      hide Copied;
      if nread + tail < SBUF_SIZE_MAX {
        Memcpy(stream, 0, sbuf, tail, nread);
        assert sbuf[..][tail..tail + nread] == sbuf[tail..tail + nread];
        tail := tail + nread;
      } else {
        var first := SBUF_SIZE_MAX - tail;
        FetchWrapped(sbuf[..], tail, nread, stream[..]);
        Memcpy(stream, 0, sbuf, tail, first);
        Memcpy(stream, first, sbuf, 0, nread - first);
        assert sbuf[tail..tail + first] == sbuf[..][tail..];
        assert sbuf[0..nread - first] == sbuf[..][..nread - first];
        tail := nread - first;
      }
    }

    /** The sound callback: as many queued bytes as there are, then silence. */
    method AudioPlay(stream: array<Byte>, len: nat)
      requires Valid() && stream != sbuf && len <= stream.Length
      modifies this, stream
      ensures Valid() && Queue() == Step(old(Queue()), Play(len))
      ensures stream[..len] == Heard(old(Queue()), len)
      ensures stream[len..] == old(stream[len..])
    {
      hide Ring, Copied, Repeat, Heard, Step;
      var nread := len;
      if count < len { nread := count; }
      ghost var buf, was := sbuf[..], stream[..];
      RingLength(buf, tail, nread);
      CopiedLength(was, 0, Ring(buf, tail, nread));
      CopyOut(stream, nread);
      count := count - nread;
      if len > nread {
        Memset(stream, nread, len - nread);
      }
      PlayedThenSilence(buf, old(tail), old(count), nread, was, stream[..], len);
      assert sbuf[..] == buf;
      assert stream[..len] == stream[..][..len] && stream[len..] == stream[..][len..];
      assert old(stream[len..]) == was[len..];
    }

    /** The copies of `audio_write`. */
    method CopyIn(buf: array<Byte>, nwrite: nat)
      requires Valid() && buf != sbuf && nwrite <= buf.Length && nwrite <= SBUF_SIZE_MAX
      modifies this`head, sbuf
      ensures sbuf[..] == Store(old(sbuf[..]), old(head), buf[..nwrite])
      ensures head == Wrap(old(head) + nwrite)
    {
      hide Copied, Store;
      if nwrite + head < SBUF_SIZE_MAX {
        StoreStraight(sbuf[..], head, buf[..nwrite]);
        Memcpy(sbuf, head, buf, 0, nwrite);
        assert buf[0..nwrite] == buf[..nwrite];
        head := head + nwrite;
      } else {
        var first := SBUF_SIZE_MAX - head;
        StoreWrapped(sbuf[..], head, buf[..nwrite]);
        Memcpy(sbuf, head, buf, 0, first);
        Memcpy(sbuf, 0, buf, first, nwrite - first);
        assert buf[0..first] == buf[..nwrite][..first];
        assert buf[first..first + (nwrite - first)] == buf[..nwrite][first..];
        head := nwrite - first;
      }
    }

    /** Accepts as many bytes as there is room for, in order. */
    method AudioWrite(buf: array<Byte>, len: nat) returns (nwrite: nat)
      requires Valid() && buf != sbuf && len <= buf.Length
      modifies this, sbuf
      ensures Valid() && nwrite == Min(len, SBUF_SIZE_MAX - |old(Queue())|)
      ensures Queue() == Step(old(Queue()), Write(buf[..len]))
    {
      hide Ring, Store;
      var room := SBUF_SIZE_MAX - count;
      nwrite := len;
      if room < len { nwrite := room; }
      RingAppend(sbuf[..], tail, count, buf[..nwrite]);
      CopyIn(buf, nwrite);
      count := count + nwrite;
      assert buf[..len][..nwrite] == buf[..nwrite];
    }

    /**
     `__am_audio_play`: while there is no room the sound callback runs, each time for one of these lengths;
     `waiting` means that the loop is still spinning after all of them. Once it leaves the loop, every byte
     is queued: none is dropped.
     */
    method AmAudioPlay(buf: array<Byte>, callbacks: seq<nat>) returns (ok: bool, waiting: bool, outputs: seq<seq<Byte>>)
      requires Valid() && buf != sbuf
      modifies this, sbuf
      ensures Valid() && (ok <==> buf.Length <= SBUF_SIZE_MAX)
      ensures !ok ==> Queue() == old(Queue())
      ensures ok ==> |outputs| <= |callbacks| && outputs == Outputs(old(Queue()), Plays(callbacks[..|outputs|]))
      ensures ok ==> Queue() == Final(old(Queue()), Plays(callbacks[..|outputs|])) + if waiting then [] else buf[..]
      ensures ok && |old(Queue())| + buf.Length <= SBUF_SIZE_MAX + Sum(callbacks) ==> !waiting
    {
      waiting, outputs := false, [];
      ok := buf.Length <= SBUF_SIZE_MAX;
      if !ok { return; }
      outputs := Spin(buf.Length, callbacks);
      hide Ring;
      if SBUF_SIZE_MAX - count < buf.Length {
        assert callbacks[..|callbacks|] == callbacks;
        waiting := true;
        return;
      }
      assert buf[..buf.Length] == buf[..];
      var _ := AudioWrite(buf, buf.Length);
    }

    method Spin(need: nat, callbacks: seq<nat>) returns (outputs: seq<seq<Byte>>)
      requires Valid() && need <= SBUF_SIZE_MAX
      modifies this, sbuf
      ensures Valid() && |outputs| <= |callbacks|
      ensures |outputs| == |callbacks| || count + need <= SBUF_SIZE_MAX
      ensures outputs == Outputs(old(Queue()), Plays(callbacks[..|outputs|]))
      ensures Queue() == Final(old(Queue()), Plays(callbacks[..|outputs|]))
      ensures count + Sum(callbacks[..|outputs|]) <= |old(Queue())| || count == 0
    {
      hide Ring, Final, Outputs, Plays, Sum, Valid, Step;
      outputs := [];
      ghost var q, lens := Queue(), [];
      RunNone(q);
      assert Plays([]) == [];
      while SBUF_SIZE_MAX - count < need && |outputs| < |callbacks|
        invariant Valid() && |outputs| <= |callbacks| && lens == callbacks[..|outputs|]
        invariant outputs == Outputs(q, Plays(lens)) && Queue() == Final(q, Plays(lens))
        decreases |callbacks| - |outputs|
      {
        var len := callbacks[|outputs|];
        assert callbacks[..|outputs| + 1] == lens + [len];
        PlaysSnoc(lens, len);
        RunSnoc(q, Plays(lens), Play(len));
        OneOutput(Queue(), len);
        var more := Apply(Play(len));
        outputs := outputs + more;
        lens := lens + [len];
      }
      Drained(q, lens);
    }

    /** Over every run of writes and callbacks the ring buffer does what the queue does. */
    method Run(events: seq<Event>) returns (outputs: seq<seq<Byte>>)
      requires Valid()
      modifies this, sbuf
      ensures Valid() && Queue() == Final(old(Queue()), events)
      ensures outputs == Outputs(old(Queue()), events)
    {
      hide Ring, Final, Outputs, Valid, Step;
      outputs := [];
      ghost var q := Queue();
      RunNone(q);
      assert events[..0] == [];
      for i := 0 to |events|
        invariant Valid() && Queue() == Final(q, events[..i]) && outputs == Outputs(q, events[..i])
      {
        assert events[..i + 1] == events[..i] + [events[i]];
        RunSnoc(q, events[..i], events[i]);
        var more := Apply(events[i]);
        outputs := outputs + more;
      }
      assert events[..|events|] == events;
    }

    method Apply(e: Event) returns (outputs: seq<seq<Byte>>)
      requires Valid()
      modifies this, sbuf
      ensures Valid() && Queue() == Step(old(Queue()), e) && outputs == Outputs(old(Queue()), [e])
    {
      hide Ring, Heard, Step;
      match e
      case Write(data) =>
        var buf := new Byte[|data|](i requires 0 <= i < |data| => data[i]);
        assert buf[..|data|] == data;
        var _ := AudioWrite(buf, |data|);
        outputs := [];
      case Play(len) =>
        OneOutput(Queue(), len);
        var stream := new Byte[len];
        AudioPlay(stream, len);
        assert stream[..] == stream[..len];
        outputs := [stream[..]];
    }
  }
}
