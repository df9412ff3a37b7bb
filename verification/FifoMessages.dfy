/** The messages of a shell task: each ends with a zero byte, and the bytes arrive in pieces of any size. */
module FifoMessages {

  type Byte = bv8
  type Bytes = seq<Byte>

  const SPACE: Byte := 32

  /** A command and the text after its first space. */
  datatype Message = Message(cmd: Bytes, value: Bytes)

  /** Where a byte stands first; the length if it does not. */
  function Find(s: Bytes, b: Byte): (k: nat)
    ensures k <= |s| && forall j :: 0 <= j < k ==> s[j] != b
    ensures k < |s| ==> s[k] == b
  {
    if s == [] || s[0] == b then 0 else 1 + Find(s[1..], b)
  }

  function ParseMessage(line: Bytes): Message {
    var k := Find(line, SPACE);
    if k == |line| then Message(line, []) else Message(line[..k], line[k + 1..])
  }

  /** All messages of a whole stream. */
  function Messages(stream: Bytes): seq<Message>
    decreases |stream|
  {
    var k := Find(stream, 0);
    if k == |stream| then [] else [ParseMessage(stream[..k])] + Messages(stream[k + 1..])
  }

  /** What is left after the last zero byte. */
  function Unfinished(stream: Bytes): Bytes
    decreases |stream|
  {
    var k := Find(stream, 0);
    if k == |stream| then stream else Unfinished(stream[k + 1..])
  }

  lemma FindAppend(a: Bytes, b: Bytes)
    ensures Find(a, 0) < |a| ==> Find(a + b, 0) == Find(a, 0)
    ensures Find(a, 0) == |a| ==> Find(a + b, 0) == |a| + Find(b, 0)
  {
    if a == [] {
      assert a + b == b;
    } else {
      assert (a + b)[1..] == a[1..] + b;
      FindAppend(a[1..], b);
    }
  }

  /** The first zero byte cuts the first message off. */
  lemma FirstMessage(a: Bytes, k: nat, b: Bytes)
    requires k < |a| && k == Find(a, 0)
    ensures Messages(a + b) == [ParseMessage(a[..k])] + Messages(a[k + 1..] + b)
    ensures Unfinished(a + b) == Unfinished(a[k + 1..] + b)
  {
    FindAppend(a, b);
    CutAppend(a, k, b);
  }

  lemma CutAppend(a: Bytes, k: nat, b: Bytes)
    requires k < |a|
    ensures (a + b)[..k] == a[..k] && (a + b)[k + 1..] == a[k + 1..] + b
  {
  }

  /** Bytes that come later join what the earlier ones left unfinished. */
  lemma {:induction false} StreamAppend(a: Bytes, b: Bytes)
    ensures Messages(a + b) == Messages(a) + Messages(Unfinished(a) + b)
    ensures Unfinished(a + b) == Unfinished(Unfinished(a) + b)
    decreases |a|
  {
    var k := Find(a, 0);
    if k < |a| {
      var first, rest := ParseMessage(a[..k]), a[k + 1..];
      StreamAppend(rest, b);
      FirstMessage(a, k, b);
      FirstMessage(a, k, []);
      assert a + [] == a && rest + [] == rest;
      Regroup(first, Messages(rest), Messages(Unfinished(rest) + b));
    } else {
      NoMessage(a);
    }
  }

  lemma NoMessage(a: Bytes)
    requires Find(a, 0) == |a|
    ensures Messages(a) == [] && Unfinished(a) == a
  {
  }

  lemma Regroup(first: Message, a: seq<Message>, b: seq<Message>)
    ensures [first] + (a + b) == ([first] + a) + b
  {
  }

  class FifoReader {
    var fifobuffer: Bytes
    /** Every message handed on so far, in order. */
    var seen: seq<Message>

    constructor ()
      ensures fifobuffer == [] && seen == []
    {
      fifobuffer, seen := [], [];
    }

    method ReadFifo(data: Bytes)
      modifies this
      ensures seen == old(seen) + Messages(old(fifobuffer) + data)
      ensures fifobuffer == Unfinished(old(fifobuffer) + data)
    {
      fifobuffer := fifobuffer + data;
      ghost var whole := fifobuffer;
      while fifobuffer != []
        invariant seen + Messages(fifobuffer) == old(seen) + Messages(whole)
        invariant Unfinished(fifobuffer) == Unfinished(whole)
        decreases |fifobuffer|
      {
        var k := Find(fifobuffer, 0);
        if k == |fifobuffer| {
          break;
        }
        assert seen + Messages(fifobuffer) ==
               (seen + [ParseMessage(fifobuffer[..k])]) + Messages(fifobuffer[k + 1..]);
        seen := seen + [ParseMessage(fifobuffer[..k])];
        fifobuffer := fifobuffer[k + 1..];
      }
    }
  }

  function Joined(pieces: seq<Bytes>): Bytes {
    if pieces == [] then [] else Joined(pieces[..|pieces| - 1]) + pieces[|pieces| - 1]
  }

  /** However the stream is cut into pieces, the same messages are handed on in the same order, and what is
    * left over is the unfinished rest of the stream. */
  method ReadPieces(pieces: seq<Bytes>) returns (seen: seq<Message>, rest: Bytes)
    ensures seen == Messages(Joined(pieces)) && rest == Unfinished(Joined(pieces))
  {
    var reader := new FifoReader();
    for i := 0 to |pieces|
      invariant reader.seen == Messages(Joined(pieces[..i])) && reader.fifobuffer == Unfinished(Joined(pieces[..i]))
      invariant fresh(reader)
    {
      assert pieces[..i + 1][..i] == pieces[..i];
      StreamAppend(Joined(pieces[..i]), pieces[i]);
      reader.ReadFifo(pieces[i]);
    }
    assert pieces[..|pieces|] == pieces;
    seen, rest := reader.seen, reader.fifobuffer;
  }

  /** What a shell function writes for a message. */
  function Written(m: Message): Bytes {
    m.cmd + [SPACE] + m.value + [0]
  }

  function WrittenAll(ms: seq<Message>): Bytes {
    if ms == [] then [] else Written(ms[0]) + WrittenAll(ms[1..])
  }

  /** No zero byte anywhere, and no space in the command. */
  predicate Sendable(m: Message) {
    0 !in m.cmd && SPACE !in m.cmd && 0 !in m.value
  }

  lemma FindFirst(s: Bytes, b: Byte, k: nat)
    requires k < |s| && s[k] == b && forall j :: 0 <= j < k ==> s[j] != b
    ensures Find(s, b) == k
  {
  }

  function Zeros(s: Bytes): nat {
    if s == [] then 0 else Zeros(s[..|s| - 1]) + if s[|s| - 1] == 0 then 1 else 0
  }

  lemma {:induction false} ZerosAppend(a: Bytes, b: Bytes)
    ensures Zeros(a + b) == Zeros(a) + Zeros(b)
  {
    if b == [] {
      assert a + b == a;
    } else {
      assert (a + b)[..|a + b| - 1] == a + b[..|b| - 1];
      ZerosAppend(a, b[..|b| - 1]);
    }
  }

  lemma {:induction false} NoZeros(s: Bytes)
    ensures Zeros(s) == 0 <==> 0 !in s
  {
    if s != [] {
      NoZeros(s[..|s| - 1]);
      assert s == s[..|s| - 1] + [s[|s| - 1]];
    }
  }

  /** There are as many messages as zero bytes. */
  lemma {:induction false} MessageCount(s: Bytes)
    ensures |Messages(s)| == Zeros(s)
    decreases |s|
  {
    var k := Find(s, 0);
    if k < |s| {
      MessageCount(s[k + 1..]);
      ZerosSplit(s, k);
    } else {
      NoZeros(s);
    }
  }

  lemma ZerosSplit(s: Bytes, k: nat)
    requires k < |s| && s[k] == 0 && forall j :: 0 <= j < k ==> s[j] != 0
    ensures Zeros(s) == 1 + Zeros(s[k + 1..])
  {
    var front, rest := s[..k], s[k + 1..];
    assert s == front + ([0] + rest);
    ZerosAppend(front, [0] + rest);
    ZerosAppend([0], rest);
    NoZeros(front);
    OneZero();
  }

  lemma OneZero()
    ensures Zeros([0]) == 1 && Zeros([SPACE]) == 0
  {
    var zero, space: Bytes := [0], [SPACE];
    assert zero[..|zero| - 1] == [] && space[..|space| - 1] == [];
  }

  lemma WrittenZeros(m: Message)
    ensures Zeros(Written(m)) == Zeros(m.cmd) + Zeros(m.value) + 1
  {
    ZerosAppend(m.cmd, [SPACE]);
    ZerosAppend(m.cmd + [SPACE], m.value);
    ZerosAppend(m.cmd + [SPACE] + m.value, [0]);
    OneZero();
  }

  lemma {:induction false} WrittenAllZeros(ms: seq<Message>)
    ensures Zeros(WrittenAll(ms)) >= |ms|
  {
    if ms != [] {
      WrittenAllZeros(ms[1..]);
      WrittenZeros(ms[0]);
      ZerosAppend(Written(ms[0]), WrittenAll(ms[1..]));
    }
  }

  /** A message without zero bytes is read as one line. */
  lemma FirstLine(m: Message, rest: Bytes)
    requires 0 !in m.cmd && 0 !in m.value
    ensures Messages(Written(m) + rest) == [ParseMessage(m.cmd + [SPACE] + m.value)] + Messages(rest)
    ensures Unfinished(Written(m) + rest) == Unfinished(rest)
  {
    var line, s := m.cmd + [SPACE] + m.value, Written(m) + rest;
    var n := |line|;
    forall j | 0 <= j < n ensures line[j] != 0 {
      if j < |m.cmd| {
        assert line[j] == m.cmd[j];
      } else if j > |m.cmd| {
        assert line[j] == m.value[j - |m.cmd| - 1];
      }
    }
    assert s == line + [0] + rest;
    FindFirst(s, 0, n);
    assert s[..n] == line && s[n + 1..] == rest;
  }

  /** The line is split at its first space, which is the one that was written iff the command has none. */
  lemma ParseExact(m: Message)
    ensures ParseMessage(m.cmd + [SPACE] + m.value) == m <==> SPACE !in m.cmd
  {
    var line := m.cmd + [SPACE] + m.value;
    assert line[|m.cmd|] == SPACE;
    var k := Find(line, SPACE);
    if SPACE in m.cmd {
      var j :| 0 <= j < |m.cmd| && m.cmd[j] == SPACE;
      assert line[j] == SPACE;
      assert |ParseMessage(line).cmd| == k <= j;
    } else {
      FindFirst(line, SPACE, |m.cmd|);
      assert line[..|m.cmd|] == m.cmd && line[|m.cmd| + 1..] == m.value;
    }
  }

  /** A list of messages comes back as it was written iff every message is sendable. */
  lemma {:induction false} RoundTripExact(ms: seq<Message>)
    ensures Messages(WrittenAll(ms)) == ms <==> forall m :: m in ms ==> Sendable(m)
  {
    if ms != [] {
      var m, rest := ms[0], WrittenAll(ms[1..]);
      assert m in ms;
      if Messages(WrittenAll(ms)) == ms {
        MessageCount(WrittenAll(ms));
        ZerosAppend(Written(m), rest);
        WrittenZeros(m);
        WrittenAllZeros(ms[1..]);
        NoZeros(m.cmd);
        NoZeros(m.value);
      }
      if 0 !in m.cmd && 0 !in m.value {
        FirstLine(m, rest);
        ParseExact(m);
        RoundTripExact(ms[1..]);
        HeadTail(ms, ParseMessage(m.cmd + [SPACE] + m.value), Messages(rest));
      }
    }
  }

  lemma HeadTail(ms: seq<Message>, head: Message, tail: seq<Message>)
    requires ms != []
    ensures [head] + tail == ms <==> head == ms[0] && tail == ms[1..]
    ensures forall m :: m in ms <==> m == ms[0] || m in ms[1..]
  {
    if [head] + tail == ms {
      assert ms[1..] == tail;
    }
  }
}
