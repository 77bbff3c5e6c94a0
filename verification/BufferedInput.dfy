/**
 filters.cpp: input that is cut into a first part, a run of whole blocks, and a last part.  How it
 is cut depends on the message alone, and not on how the message arrives.
 */
module BufferedInput {
  import opened Integers
  import opened Bytes
  import opened BlockQueues

  /** What a derived filter is given. */
  datatype Put = FirstPut(head: seq<byte>) | NextPut(blocks: seq<byte>) | LastPut(tail: seq<byte>)

  /** How many bytes are passed on in whole blocks, when `n` bytes follow the first part. */
  function Emitted(n: nat, blockSize: nat, lastSize: nat): (e: nat)
    requires blockSize > 0
    ensures e <= n
  {
    if n < blockSize + lastSize then 0 else blockSize + Emitted(n - blockSize, blockSize, lastSize)
  }

  function PayloadOfPut(p: Put): seq<byte> {
    match p
    case FirstPut(s) => s
    case NextPut(s) => s
    case LastPut(s) => s
  }

  /** The bytes of `puts`, in order. */
  function Payload(puts: seq<Put>): seq<byte> {
    if puts == [] then [] else Payload(puts[..|puts| - 1]) + PayloadOfPut(puts[|puts| - 1])
  }

  /** One run of whole blocks after another, none of them empty. */
  predicate AreBlocks(puts: seq<Put>, blockSize: nat)
    requires blockSize > 0
  {
    forall i :: 0 <= i < |puts| ==> puts[i].NextPut? && |puts[i].blocks| > 0 && |puts[i].blocks| % blockSize == 0
  }

  datatype Sizes = Sizes(first: nat, block: nat, last: nat)

  /** What has been passed on of the part of a message that has arrived. */
  ghost predicate PassedOn(z: Sizes, done: bool, puts: seq<Put>, message: seq<byte>, held: seq<byte>)
    requires z.block > 0
  {
    if !done then puts == [] && held == message && (|message| < z.first || message == [])
    else
      && z.first <= |message| && |puts| > 0 && puts[0] == FirstPut(message[..z.first])
      && AreBlocks(puts[1..], z.block)
      && Payload(puts[1..]) == message[z.first..z.first + Emitted(|message| - z.first, z.block, z.last)]
      && held == message[z.first + Emitted(|message| - z.first, z.block, z.last)..]
  }

  /** What a derived filter is given for a whole message. */
  ghost predicate CutUp(z: Sizes, puts: seq<Put>, message: seq<byte>)
    requires z.block > 0
  {
    if |message| < z.first then puts == [LastPut(message)]
    else
      var e := z.first + Emitted(|message| - z.first, z.block, z.last);
      && |puts| >= 2 && puts[0] == FirstPut(message[..z.first]) && puts[|puts| - 1] == LastPut(message[e..])
      && AreBlocks(puts[1..|puts| - 1], z.block) && Payload(puts[1..|puts| - 1]) == message[z.first..e]
  }

  /** The rule for the length of the last part. */
  lemma {:induction false} LastLength(n: nat, blockSize: nat, lastSize: nat)
    requires blockSize > 0
    ensures var e := Emitted(n, blockSize, lastSize);
            && (n < blockSize + lastSize ==> e == 0)
            && (n >= blockSize + lastSize ==> lastSize <= n - e < lastSize + blockSize)
            && e % blockSize == 0 && (e > 0 <==> n >= blockSize + lastSize)
  {
    if n >= blockSize + lastSize {
      LastLength(n - blockSize, blockSize, lastSize);
      AddBlock(Emitted(n - blockSize, blockSize, lastSize), blockSize);
    } else {
      DivModUnique(0, blockSize, 0, 0);
    }
  }

  /** More input: what was passed on before stays, and the rest is treated like input of its own. */
  lemma {:induction false} EmittedMore(n: nat, m: nat, blockSize: nat, lastSize: nat)
    requires blockSize > 0
    ensures var e := Emitted(n, blockSize, lastSize);
            Emitted(n + m, blockSize, lastSize) == e + Emitted(n - e + m, blockSize, lastSize)
  {
    if n >= blockSize + lastSize {
      EmittedMore(n - blockSize, m, blockSize, lastSize);
    }
  }

  function RoundDownToMultipleOf(n: nat, m: nat): nat
    requires m > 0
  {
    n - n % m
  }

  /** The source rounds down where the model counts blocks. */
  lemma {:induction false} EmittedRoundsDown(n: nat, blockSize: nat, lastSize: nat)
    requires blockSize > 0 && n >= blockSize + lastSize
    ensures Emitted(n, blockSize, lastSize) == RoundDownToMultipleOf(n - lastSize, blockSize)
  {
    AddBlock(n - blockSize - lastSize, blockSize);
    if n >= blockSize + lastSize + blockSize {
      EmittedRoundsDown(n - blockSize, blockSize, lastSize);
    } else {
      DivModUnique(n - blockSize - lastSize, blockSize, 0, n - blockSize - lastSize);
    }
  }

  function WaitingBlocks(blockSize: nat, lastSize: nat): nat
    requires blockSize > 0
  {
    (2 * blockSize + lastSize - 2) / blockSize
  }

  /** The queue has room for whatever has to wait. */
  lemma RoomToWait(blockSize: nat, lastSize: nat)
    requires blockSize > 0
    ensures var n := Capacity(blockSize, WaitingBlocks(blockSize, lastSize));
            blockSize + lastSize - 1 <= n && (n > 0 ==> blockSize <= n)
  {
    var x := 2 * blockSize + lastSize - 2;
    assert x == blockSize * (x / blockSize) + x % blockSize;
  }

  lemma PayloadOne(puts: seq<Put>, p: Put)
    ensures Payload(puts + [p]) == Payload(puts) + PayloadOfPut(p)
  {
    assert (puts + [p])[..|puts|] == puts;
  }

  lemma PayloadBytes(puts: seq<Put>, blockSize: nat, p: Put)
    requires blockSize > 0 && AreBlocks(puts, blockSize)
    requires p.NextPut? && |p.blocks| > 0 && |p.blocks| % blockSize == 0
    ensures AreBlocks(puts + [p], blockSize) && Payload(puts + [p]) == Payload(puts) + p.blocks
  {
    PayloadOne(puts, p);
  }

  lemma PayloadNone()
    ensures Payload([]) == []
  {
  }

  lemma {:induction false} PayloadConcat(p: seq<Put>, q: seq<Put>)
    ensures Payload(p + q) == Payload(p) + Payload(q)
  {
    hide Payload, PayloadOfPut;
    if q == [] {
      assert p + q == p;
      PayloadNone();
    } else {
      var n := |q| - 1;
      PayloadConcat(p, q[..n]);
      PayloadOne(q[..n], q[n]);
      PayloadOne(p + q[..n], q[n]);
      assert q == q[..n] + [q[n]] && p + q == p + q[..n] + [q[n]];
    }
  }

  // ---------------------------------------------------------------- one call

  /** After `sent` of the bytes `all` that were waiting, `held` are left. */
  ghost predicate Sending(z: Sizes, puts: seq<Put>, all: seq<byte>, sent: nat, held: seq<byte>)
    requires z.block > 0
  {
    && AreBlocks(puts, z.block) && sent <= |all| && Payload(puts) == all[..sent] && held == all[sent..]
    && Emitted(|all|, z.block, z.last) == sent + Emitted(|held|, z.block, z.last)
  }

  lemma NothingSent(z: Sizes, all: seq<byte>)
    requires z.block > 0
    ensures Sending(z, [], all, 0, all)
  {
  }

  lemma Send(z: Sizes, puts: seq<Put>, all: seq<byte>, sent: nat, held: seq<byte>, k: nat)
    requires z.block > 0 && Sending(z, puts, all, sent, held)
    requires 0 < k <= |held| && k % z.block == 0
    requires Emitted(|held|, z.block, z.last) == k + Emitted(|held| - k, z.block, z.last)
    ensures Sending(z, puts + [NextPut(held[..k])], all, sent + k, held[k..])
  {
    hide Payload, Emitted;
    PayloadBytes(puts, z.block, NextPut(held[..k]));
  }

  /** One block, when there is one to spare. */
  lemma SendBlock(z: Sizes, puts: seq<Put>, all: seq<byte>, sent: nat, held: seq<byte>)
    requires z.block > 0 && Sending(z, puts, all, sent, held) && |held| >= z.block + z.last
    ensures Sending(z, puts + [NextPut(held[..z.block])], all, sent + z.block, held[z.block..])
  {
    hide Sending;
    DivModUnique(z.block, z.block, 1, 0);
    Send(z, puts, all, sent, held, z.block);
  }

  /** All blocks that there are to spare. */
  lemma SendBlocks(z: Sizes, puts: seq<Put>, all: seq<byte>, sent: nat, held: seq<byte>)
    requires z.block > 0 && Sending(z, puts, all, sent, held) && |held| >= z.block + z.last
    ensures var k := RoundDownToMultipleOf(|held| - z.last, z.block);
            && k <= |held| && |held| - k < z.block + z.last
            && Sending(z, puts + [NextPut(held[..k])], all, sent + k, held[k..])
  {
    hide Sending;
    LastLength(|held|, z.block, z.last);
    EmittedRoundsDown(|held|, z.block, z.last);
    Send(z, puts, all, sent, held, RoundDownToMultipleOf(|held| - z.last, z.block));
  }

  lemma {:induction false} EmittedBytes(n: nat, lastSize: nat)
    ensures Emitted(n, 1, lastSize) == if n > lastSize then n - lastSize else 0
  {
    if n > lastSize {
      EmittedBytes(n - 1, lastSize);
    }
  }

  lemma SendBytes(z: Sizes, puts: seq<Put>, all: seq<byte>, sent: nat, held: seq<byte>, k: nat)
    requires z.block == 1 && Sending(z, puts, all, sent, held) && 0 < k && k + z.last <= |held|
    ensures Sending(z, puts + [NextPut(held[..k])], all, sent + k, held[k..])
  {
    hide Sending;
    EmittedBytes(|held|, z.last);
    EmittedBytes(|held| - k, z.last);
    Send(z, puts, all, sent, held, k);
  }

  /** A call adds to what the calls before it have passed on. */
  lemma PassOnMore(z: Sizes, puts: seq<Put>, message: seq<byte>, held: seq<byte>,
      input: seq<byte>, more: seq<Put>, sent: nat, held': seq<byte>)
    requires z.block > 0 && PassedOn(z, true, puts, message, held)
    requires Sending(z, more, held + input, sent, held') && |held'| < z.block + z.last
    ensures PassedOn(z, true, puts + more, message + input, held')
  {
    hide Payload, Emitted;
    var n := |message| - z.first;
    var e := Emitted(n, z.block, z.last);
    EmittedMore(n, |input|, z.block, z.last);
    LastLength(|held'|, z.block, z.last);
    assert (puts + more)[1..] == puts[1..] + more;
    PayloadConcat(puts[1..], more);
    assert message + input == message[..z.first + e] + (held + input);
    assert |message + input| - z.first == n + |input|;
  }

  lemma NothingPassedOn(z: Sizes, puts: seq<Put>, message: seq<byte>, held: seq<byte>)
    requires z.block > 0 && PassedOn(z, false, puts, message, held)
    ensures puts == [] && held == message && (|message| < z.first || message == [])
  {
  }

  lemma PassOnFirst(z: Sizes, message: seq<byte>)
    requires z.block > 0 && |message| == z.first
    ensures PassedOn(z, true, [FirstPut(message)], message, [])
  {
    assert message[..z.first] == message;
  }

  lemma FinishDone(z: Sizes, puts: seq<Put>, message: seq<byte>, held: seq<byte>)
    requires z.block > 0 && PassedOn(z, true, puts, message, held)
    ensures CutUp(z, puts + [LastPut(held)], message)
  {
    hide Payload, Emitted, AreBlocks;
    var all := puts + [LastPut(held)];
    assert all[1..|all| - 1] == puts[1..];
  }

  lemma FinishShort(z: Sizes, message: seq<byte>)
    requires z.block > 0 && |message| < z.first
    ensures CutUp(z, [] + [LastPut(message)], message)
  {
    assert [] + [LastPut(message)] == [LastPut(message)];
  }

  /** The end of a message: without a first part to wait for, an empty message still has one. */
  lemma Finish(z: Sizes, done: bool, puts: seq<Put>, message: seq<byte>, held: seq<byte>)
    requires z.block > 0 && PassedOn(z, done, puts, message, held)
    ensures CutUp(z, (if !done && z.first == 0 then puts + [FirstPut([])] else puts) + [LastPut(held)], message)
  {
    hide PassedOn, CutUp;
    if done {
      FinishDone(z, puts, message, held);
    } else {
      NothingPassedOn(z, puts, message, held);
      if z.first == 0 {
        PassOnFirst(z, message);
        FinishDone(z, [FirstPut(message)], message, []);
        assert puts + [FirstPut([])] == [FirstPut(message)];
      } else {
        FinishShort(z, message);
      }
    }
  }

  lemma BytesOf(s: seq<byte>)
    ensures PayloadOfPut(FirstPut(s)) == s && PayloadOfPut(LastPut(s)) == s
  {
  }

  lemma Halves(s: seq<byte>, i: nat, j: nat)
    requires i <= j <= |s|
    ensures s[..i] + s[i..j] + s[j..] == s
  {
  }

  lemma PayloadOf(p: Put)
    ensures Payload([p]) == PayloadOfPut(p)
  {
    PayloadNone();
    PayloadOne([], p);
    assert [] + [p] == [p];
  }

  lemma PayloadOf3(p: Put, middle: seq<Put>, q: Put)
    ensures Payload([p] + middle + [q]) == PayloadOfPut(p) + Payload(middle) + PayloadOfPut(q)
  {
    hide Payload, PayloadOfPut;
    PayloadOf(p);
    PayloadConcat([p], middle);
    PayloadOne([p] + middle, q);
  }

  lemma CutUpPayload(z: Sizes, puts: seq<Put>, message: seq<byte>)
    requires z.block > 0 && CutUp(z, puts, message)
    ensures Payload(puts) == message
  {
    hide Payload, Emitted, AreBlocks, PayloadOfPut;
    if |message| < z.first {
      BytesOf(message);
      PayloadOf(LastPut(message));
    } else {
      var last := |puts| - 1;
      var e := z.first + Emitted(|message| - z.first, z.block, z.last);
      assert puts == [puts[0]] + puts[1..last] + [puts[last]];
      BytesOf(message[..z.first]);
      BytesOf(message[e..]);
      PayloadOf3(puts[0], puts[1..last], puts[last]);
      Halves(message, z.first, e);
    }
  }

  lemma MiddleEmpty(puts: seq<Put>, blockSize: nat)
    requires blockSize > 0 && AreBlocks(puts, blockSize)
    ensures Payload(puts) == [] <==> puts == []
  {
    if puts != [] {
      assert |puts[|puts| - 1].blocks| > 0;
    }
  }

  /** The documented rules for the three kinds of calls. */
  lemma CutUpRules(z: Sizes, puts: seq<Put>, message: seq<byte>)
    requires z.block > 0 && CutUp(z, puts, message)
    ensures var n := |message|;
            var last := |puts| - 1;
            && Payload(puts) == message
            && last >= 0 && puts[last].LastPut?
            && (puts[0].FirstPut? <==> n >= z.first) && (puts[0].FirstPut? ==> |puts[0].head| == z.first)
            && (|puts| > 2 <==> n >= z.first + z.block + z.last)
            && (n < z.first ==> |puts[last].tail| == n)
            && (z.first <= n <= z.first + z.last ==> |puts[last].tail| == n - z.first)
            && (n > z.first + z.last ==> z.last <= |puts[last].tail| < z.last + z.block)
  {
    hide Payload, Emitted, AreBlocks;
    CutUpPayload(z, puts, message);
    if |message| >= z.first {
      LastLength(|message| - z.first, z.block, z.last);
      MiddleEmpty(puts[1..|puts| - 1], z.block);
    }
  }

  /** Two runs over one message differ at most in where one NextPut ends and the next one begins. */
  lemma CutUpUnique(z: Sizes, puts: seq<Put>, puts': seq<Put>, message: seq<byte>)
    requires z.block > 0 && CutUp(z, puts, message) && CutUp(z, puts', message)
    ensures puts[0] == puts'[0] && puts[|puts| - 1] == puts'[|puts'| - 1]
    ensures |puts| >= 2 ==> |puts'| >= 2 && Payload(puts[1..|puts| - 1]) == Payload(puts'[1..|puts'| - 1])
  {
  }

  // ---------------------------------------------------------------- the filter

  lemma NoMessage(z: Sizes)
    requires z.block > 0
    ensures PassedOn(z, false, [], [], [])
  {
  }

  class FilterWithBufferedInput {
    const m_queue: BlockQueue
    var m_firstSize: nat
    var m_blockSize: nat
    var m_lastSize: nat
    var m_firstInputDone: bool
    var puts: seq<Put>            // what the derived filter has been given
    ghost var start: nat          // how much of it belongs to earlier messages
    ghost var message: seq<byte>  // the part of the message that has arrived

    ghost function Z(): Sizes
      reads this
    {
      Sizes(m_firstSize, m_blockSize, m_lastSize)
    }

    ghost predicate QueueShape()
      reads this, m_queue
    {
      && m_queue.Valid() && m_blockSize > 0
      && (!m_firstInputDone ==> m_queue.m_blockSize == 1 && m_queue.m_maxBlocks == m_firstSize && m_queue.m_begin == 0)
      && (m_firstInputDone ==> && m_queue.m_blockSize == m_blockSize && m_queue.Aligned()
                               && m_queue.m_maxBlocks == WaitingBlocks(m_blockSize, m_lastSize))
    }

    ghost predicate Valid()
      reads this, m_queue, m_queue.m_buffer
    {
      QueueShape() && start <= |puts| && PassedOn(Z(), m_firstInputDone, puts[start..], message, m_queue.Contents())
    }

    constructor (firstSize: nat, blockSize: nat, lastSize: nat)
      requires blockSize > 0
      ensures Valid() && Z() == Sizes(firstSize, blockSize, lastSize)
      ensures puts == [] && message == [] && start == 0 && fresh(m_queue) && fresh(m_queue.m_buffer)
    {
      hide WaitingBlocks;
      m_queue := new BlockQueue();
      m_firstSize, m_blockSize, m_lastSize := firstSize, blockSize, lastSize;
      m_firstInputDone := false;
      puts, message, start := [], [], 0;
      new;
      m_queue.ResetQueue(1, firstSize);
    }

    /** Enough has arrived for the first part: passes it on, and returns what is left of the input. */
    method FirstInput(inString: seq<byte>) returns (rest: seq<byte>)
      requires Valid() && !m_firstInputDone && m_queue.m_size + |inString| >= m_firstSize
      modifies this, m_queue, m_queue.m_buffer
      ensures Valid() && m_firstInputDone && Z() == old(Z()) && start == old(start)
      ensures old(puts) <= puts && fresh(m_queue.m_buffer)
      ensures message + rest == old(message) + inString && m_queue.Contents() == []
    {
      hide WaitingBlocks, PassedOn, Ring;
      RingSize(m_queue.m_buffer[..], m_queue.m_begin, m_queue.m_size);
      NothingPassedOn(Z(), puts[start..], message, m_queue.Contents());
      var len := m_firstSize - m_queue.m_size;
      m_queue.Put(inString[..len]);
      ghost var first := m_queue.Contents();
      // the source passes m_firstSize by reference, and the queue writes the number of bytes to it
      var head := m_queue.GetContigousBlocks(m_firstSize);
      m_firstSize := |head|;
      ghost var before := puts;
      puts := puts + [FirstPut(head)];
      m_queue.ResetQueue(m_blockSize, WaitingBlocks(m_blockSize, m_lastSize));
      rest := inString[len..];
      m_firstInputDone := true;
      assert head == first;
      assert puts[start..] == before[start..] + [FirstPut(head)];
      message := message + inString[..len];
      PassOnFirst(Z(), message);
      DivModUnique(0, m_blockSize, 0, 0);
    }

    /** The queue and the rest of the input hold what the puts `more` have not passed on. */
    ghost predicate Passing(before: seq<Put>, more: seq<Put>, all: seq<byte>, sent: nat, rest: seq<byte>)
      reads this, m_queue, m_queue.m_buffer
    {
      && QueueShape() && m_firstInputDone && puts == before + more
      && Sending(Z(), more, all, sent, m_queue.Contents() + rest)
    }

    /** Blocks of a single byte: everything but the last part is passed on. */
    method PassOnBytes(inString: seq<byte>) returns (rest: seq<byte>, ghost more: seq<Put>, ghost sent: nat)
      requires QueueShape() && m_firstInputDone && m_blockSize == 1
      modifies this`puts, m_queue
      ensures Passing(old(puts), more, old(m_queue.Contents()) + inString, sent, rest)
      ensures m_queue.m_size + |rest| < m_blockSize + m_lastSize && m_queue.m_buffer == old(m_queue.m_buffer)
    {
      hide WaitingBlocks, Capacity;
      hide Sending;
      var newLength := m_queue.m_size + |inString|;
      rest, more, sent := inString, [], 0;
      ghost var all := m_queue.Contents() + inString;
      NothingSent(Z(), all);
      while newLength > m_lastSize && m_queue.m_size > 0
        invariant Passing(old(puts), more, all, sent, rest) && m_queue.m_buffer == old(m_queue.m_buffer)
        invariant newLength == m_queue.m_size + |rest|
        decreases m_queue.m_size
      {
        more, sent := PassSomeBytes(newLength - m_lastSize, old(puts), more, all, sent, rest);
        newLength := m_queue.m_size + |rest|;
      }
      if newLength > m_lastSize {
        var len := newLength - m_lastSize;
        EmptyQueue();
        SendBytes(Z(), more, all, sent, rest, len);
        rest, more, sent := PassInput(rest, len, old(puts), more, all, sent);
      }
    }

    /** At most `len` bytes from the queue. */
    method PassSomeBytes(len: nat, ghost before: seq<Put>, ghost more: seq<Put>, ghost all: seq<byte>, ghost sent: nat,
        ghost rest: seq<byte>)
      returns (ghost more': seq<Put>, ghost sent': nat)
      requires Passing(before, more, all, sent, rest) && m_blockSize == 1
      requires m_queue.m_size > 0 && 0 < len && m_queue.m_size + |rest| == len + m_lastSize
      modifies this`puts, m_queue
      ensures Passing(before, more', all, sent', rest) && m_queue.m_size < old(m_queue.m_size)
      ensures m_queue.m_buffer == old(m_queue.m_buffer)
    {
      hide WaitingBlocks, Capacity;
      hide Sending;
      ghost var held := m_queue.Contents() + rest;
      var ptr := m_queue.GetContigousBlocks(len);
      assert ptr == held[..|ptr|] && m_queue.Contents() + rest == held[|ptr|..];
      SendBytes(Z(), more, all, sent, held, |ptr|);
      puts := puts + [NextPut(ptr)];
      more', sent' := more + [NextPut(ptr)], sent + |ptr|;
      DivModUnique(m_queue.m_begin, 1, m_queue.m_begin, 0);
    }

    /** The first `len` bytes of the input, when the queue is empty. */
    method PassInput(rest: seq<byte>, len: nat, ghost before: seq<Put>, ghost more: seq<Put>, ghost all: seq<byte>,
        ghost sent: nat)
      returns (rest': seq<byte>, ghost more': seq<Put>, ghost sent': nat)
      requires Passing(before, more, all, sent, rest) && m_queue.m_size == 0 && len <= |rest|
      requires Sending(Z(), more + [NextPut(rest[..len])], all, sent + len, rest[len..])
      modifies this`puts
      ensures Passing(before, more', all, sent', rest') && rest' == rest[len..]
    {
      hide WaitingBlocks, Capacity;
      hide Sending;
      EmptyQueue();
      puts := puts + [NextPut(rest[..len])];
      more', sent' := more + [NextPut(rest[..len])], sent + len;
      rest' := rest[len..];
      assert [] + rest' == rest';
    }

    lemma Room()
      requires QueueShape() && m_firstInputDone
      ensures m_blockSize + m_lastSize - 1 <= m_queue.m_buffer.Length
      ensures m_queue.m_size > 0 ==> m_blockSize <= m_queue.m_buffer.Length
    {
      hide WaitingBlocks, Capacity;
      RoomToWait(m_blockSize, m_lastSize);
    }

    lemma EmptyQueue()
      requires m_queue.Valid() && m_queue.m_size == 0
      ensures forall s: seq<byte> :: m_queue.Contents() + s == s
    {
    }

    /** Longer blocks: those in the queue, one that is completed in the queue, and those in the input. */
    method PassOnBlocks(inString: seq<byte>) returns (rest: seq<byte>, ghost more: seq<Put>, ghost sent: nat)
      requires QueueShape() && m_firstInputDone
      modifies this`puts, m_queue, m_queue.m_buffer
      ensures Passing(old(puts), more, old(m_queue.Contents()) + inString, sent, rest)
      ensures m_queue.m_size + |rest| < m_blockSize + m_lastSize && m_queue.m_buffer == old(m_queue.m_buffer)
    {
      hide WaitingBlocks, Capacity;
      hide Sending;
      var newLength := m_queue.m_size + |inString|;
      rest, more, sent := inString, [], 0;
      ghost var all := m_queue.Contents() + inString;
      NothingSent(Z(), all);
      while newLength >= m_blockSize + m_lastSize && m_queue.m_size >= m_blockSize
        invariant Passing(old(puts), more, all, sent, rest) && m_queue.m_buffer == old(m_queue.m_buffer)
        invariant newLength == m_queue.m_size + |rest|
        decreases m_queue.m_size
      {
        more, sent := PassOneBlock(old(puts), more, all, sent, rest);
        newLength := newLength - m_blockSize;
      }
      if newLength >= m_blockSize + m_lastSize && m_queue.m_size > 0 {
        rest, more, sent := CompleteBlock(rest, old(puts), more, all, sent);
        newLength := newLength - m_blockSize;
      }
      if newLength >= m_blockSize + m_lastSize {
        var len := RoundDownToMultipleOf(newLength - m_lastSize, m_blockSize);
        EmptyQueue();
        SendBlocks(Z(), more, all, sent, rest);
        rest, more, sent := PassInput(rest, len, old(puts), more, all, sent);
      }
    }

    /** A block that is partly in the queue. */
    method CompleteBlock(inString: seq<byte>, ghost before: seq<Put>, ghost more: seq<Put>, ghost all: seq<byte>,
        ghost sent: nat)
      returns (rest: seq<byte>, ghost more': seq<Put>, ghost sent': nat)
      requires Passing(before, more, all, sent, inString)
      requires 0 < m_queue.m_size < m_blockSize && m_queue.m_size + |inString| >= m_blockSize + m_lastSize
      modifies this`puts, m_queue, m_queue.m_buffer
      ensures Passing(before, more', all, sent', rest) && m_queue.m_buffer == old(m_queue.m_buffer)
      ensures m_queue.m_size == 0 && |rest| == old(m_queue.m_size) + |inString| - m_blockSize
    {
      hide WaitingBlocks, Capacity;
      hide Sending, BlockQueue.Valid;
      var len := m_blockSize - m_queue.m_size;
      Room();
      assert m_queue.Contents() + inString == (m_queue.Contents() + inString[..len]) + inString[len..];
      m_queue.Put(inString[..len]);
      rest := inString[len..];
      more', sent' := PassOneBlock(before, more, all, sent, rest);
    }

    /** The next block in the queue. */
    method PassOneBlock(ghost before: seq<Put>, ghost more: seq<Put>, ghost all: seq<byte>, ghost sent: nat,
        ghost rest: seq<byte>)
      returns (ghost more': seq<Put>, ghost sent': nat)
      requires Passing(before, more, all, sent, rest)
      requires m_queue.m_size >= m_blockSize && m_queue.m_size + |rest| >= m_blockSize + m_lastSize
      modifies this`puts, m_queue
      ensures Passing(before, more', all, sent', rest) && m_queue.m_size == old(m_queue.m_size) - m_blockSize
      ensures m_queue.m_buffer == old(m_queue.m_buffer)
    {
      hide WaitingBlocks, Capacity;
      hide Sending;
      ghost var held := m_queue.Contents() + rest;
      var block := m_queue.GetBlock();
      puts := puts + [NextPut(block.value)];
      assert block.value == held[..m_blockSize] && m_queue.Contents() + rest == held[m_blockSize..];
      SendBlock(Z(), more, all, sent, held);
      more', sent' := more + [NextPut(block.value)], sent + m_blockSize;
    }

    /** Input in the middle of a message, after the first part. */
    method PassOn(inString: seq<byte>)
      requires Valid() && m_firstInputDone
      modifies this`puts, this`message, m_queue, m_queue.m_buffer
      ensures Valid() && message == old(message) + inString && old(puts) <= puts
      ensures m_queue.m_buffer == old(m_queue.m_buffer)
    {
      hide WaitingBlocks, Capacity, PassedOn, Sending, Ring, AreBlocks;
      var rest;
      ghost var more, sent;
      if m_blockSize == 1 {
        rest, more, sent := PassOnBytes(inString);
      } else {
        rest, more, sent := PassOnBlocks(inString);
      }
      RoomToWait(m_blockSize, m_lastSize);
      m_queue.Put(rest);
      RingSize(m_queue.m_buffer[..], m_queue.m_begin, m_queue.m_size);
      PassOnMore(Z(), old(puts[start..]), message, old(m_queue.Contents()), inString, more, sent, m_queue.Contents());
      assert puts[start..] == old(puts[start..]) + more;
      message := message + inString;
    }

    /**
     One call of Put.  At the end of a message the derived filter has been given the whole message,
     cut up in a way that does not depend on the calls in which it came.
     */
    method PutMaybeModifiable(inString: seq<byte>, messageEnd: bool)
      requires Valid()
      modifies this, m_queue, m_queue.m_buffer
      ensures Valid() && Z() == old(Z()) && old(start) <= |puts| && old(puts) <= puts
      ensures m_queue.m_buffer == old(m_queue.m_buffer) || fresh(m_queue.m_buffer)
      ensures !messageEnd ==> message == old(message) + inString && start == old(start)
      ensures messageEnd ==> && start == |puts| && message == [] && old(start) <= start
                             && CutUp(Z(), puts[old(start)..], old(message) + inString)
    {
      hide WaitingBlocks, Capacity;
      hide PassedOn, CutUp;
      if |inString| != 0 {
        var rest := inString;
        if !m_firstInputDone && m_queue.m_size + |inString| >= m_firstSize {
          rest := FirstInput(inString);
        }
        if m_firstInputDone {
          PassOn(rest);
        } else {
          Wait(rest);
        }
      }
      assert inString == [] ==> old(message) + inString == old(message);
      if messageEnd {
        EndMessage();
      }
    }

    method EndMessage()
      requires Valid()
      modifies this, m_queue
      ensures Valid() && Z() == old(Z()) && old(start) <= |puts| && old(puts) <= puts
      ensures start == |puts| && message == [] && fresh(m_queue.m_buffer)
      ensures CutUp(Z(), puts[old(start)..], old(message))
    {
      hide WaitingBlocks, Capacity;
      hide PassedOn, CutUp;
      ghost var before := puts[start..];
      Finish(Z(), m_firstInputDone, before, message, m_queue.Contents());
      if !m_firstInputDone && m_firstSize == 0 {
        puts := puts + [FirstPut([])];
        assert puts[start..] == before + [FirstPut([])];
      }
      LastInput(puts[start..]);
    }

    method LastInput(ghost given: seq<Put>)
      requires QueueShape() && start <= |puts| && given == puts[start..]
      modifies this, m_queue
      ensures Valid() && Z() == old(Z()) && old(start) <= |puts| && old(puts) <= puts
      ensures start == |puts| && message == [] && fresh(m_queue.m_buffer)
      ensures puts[old(start)..] == given + [LastPut(old(m_queue.Contents()))]
    {
      hide WaitingBlocks;
      hide PassedOn, Ring;
      var temp := m_queue.GetAll();
      puts := puts + [LastPut(temp)];
      assert puts[start..] == given + [LastPut(temp)];
      m_firstInputDone := false;
      m_queue.ResetQueue(1, m_firstSize);
      message := [];
      start := |puts|;
      assert puts[start..] == [];
      NoMessage(Z());
    }

    /** Not enough yet for the first part. */
    method Wait(inString: seq<byte>)
      requires Valid() && !m_firstInputDone && m_queue.m_size + |inString| < m_firstSize
      modifies this`message, m_queue, m_queue.m_buffer
      ensures Valid() && message == old(message) + inString && m_queue.m_buffer == old(m_queue.m_buffer)
    {
      hide WaitingBlocks;
      m_queue.Put(inString);
      message := message + inString;
    }
  }

  /** A filter with the given sizes, which are unsigned; null where the source refuses them. */
  method NewFilter(firstSize: nat, blockSize: nat, lastSize: nat) returns (filter: FilterWithBufferedInput?)
    ensures filter == null <==> blockSize < 1
    ensures filter != null ==> fresh(filter) && filter.Valid() && filter.Z() == Sizes(firstSize, blockSize, lastSize)
    ensures filter != null ==> filter.puts == [] && filter.message == [] && filter.start == 0
  {
    if blockSize < 1 {
      return null;
    }
    filter := new FilterWithBufferedInput(firstSize, blockSize, lastSize);
  }
}
