/** The recording buffer and frame layout of flow_rpc.go. */
module FlowRecording {
  import opened Numbers
  import opened Text

  newtype byte = x: int | 0 <= x < 256

  // ---- The header: one type byte, a 32-bit big-endian length, the request ID ----

  const AUDIO: byte := 1
  const WORD := 0x1_0000_0000

  /** `binary.BigEndian.PutUint32` of `uint32(n)`, which keeps the low 32 bits. */
  function Encode32(n: nat): (r: seq<byte>)
    ensures |r| == 4
  {
    var w := n % WORD;
    [(w / 0x100_0000) as byte, (w / 0x1_0000 % 256) as byte, (w / 0x100 % 256) as byte, (w % 256) as byte]
  }

  function Decode32(b: seq<byte>): nat
    requires |b| == 4
  {
    b[0] as int * 0x100_0000 + b[1] as int * 0x1_0000 + b[2] as int * 0x100 + b[3] as int
  }

  lemma DecodeOfEncode(n: nat)
    ensures Decode32(Encode32(n)) == n % WORD
  {
    var w := n % WORD;
    assert w / 0x1_0000 == w / 0x100_0000 * 256 + w / 0x1_0000 % 256;
    assert w / 0x100 == w / 0x1_0000 * 256 + w / 0x100 % 256;
    assert w == w / 0x100 * 256 + w % 256;
  }

  /** The digits of base 256, the most significant first. */
  lemma EncodeIsBigEndian(p: byte, q: byte, r: byte, s: byte)
    ensures Encode32(((p as int * 256 + q as int) * 256 + r as int) * 256 + s as int) == [p, q, r, s]
  {
    var a, b, c, d := p as int, q as int, r as int, s as int;
    var w := ((a * 256 + b) * 256 + c) * 256 + d;
    DivisionUnique(w, WORD, 0, w);
    DivisionUnique(w, 0x100, (a * 256 + b) * 256 + c, d);
    DivisionUnique(w, 0x1_0000, a * 256 + b, c * 256 + d);
    DivisionUnique(w, 0x100_0000, a, (b * 256 + c) * 256 + d);
    DivisionUnique(a * 256 + b, 256, a, b);
    DivisionUnique((a * 256 + b) * 256 + c, 256, a * 256 + b, c);
  }

  function Header(id: seq<byte>): (h: seq<byte>)
    ensures |h| == 5 + |id|
  {
    [AUDIO] + Encode32(|id|) + id
  }

  /** What an agent reads back: the ID, and the audio behind it. */
  datatype Frame = Unreadable | Frame(id: seq<byte>, audio: seq<byte>)

  function Decode(rec: seq<byte>): Frame {
    if |rec| < 5 || rec[0] != 1 then Unreadable
    else
      var n := Decode32(rec[1..5]);
      if 5 + n > |rec| then Unreadable else Frame(rec[5..5 + n], rec[5 + n..])
  }

  /** A recording decodes to its ID and audio if and only if the length of the ID fits 32 bits. */
  lemma RoundTripIff(id: seq<byte>, audio: seq<byte>)
    ensures Decode(Header(id) + audio) == Frame(id, audio) <==> |id| < WORD
  {
    var rec := Header(id) + audio;
    DecodeOfEncode(|id|);
    assert rec[1..5] == Encode32(|id|);
    var n := |id| % WORD;
    if |id| < WORD {
      assert rec[5..5 + n] == id && rec[5 + n..] == audio;
    } else {
      assert n < |id|;
    }
  }

  // ---- Writing frames ----

  datatype WriteError = Ok | UnexpectedEOF | ClosedPipe

  /** The buffer content after one write: a frame is kept whole or not at all. */
  function Written(content: seq<byte>, capacity: nat, b: seq<byte>): (r: seq<byte>)
    requires |content| <= capacity
    ensures |r| <= capacity
  {
    var avail := capacity - |content|;
    if avail > |b| || (avail == |b| && content != []) then content + b else content
  }

  function WrittenAll(content: seq<byte>, capacity: nat, frames: seq<seq<byte>>): (r: seq<byte>)
    requires |content| <= capacity
    ensures |r| <= capacity
  {
    if frames == [] then content
    else Written(WrittenAll(content, capacity, frames[..|frames| - 1]), capacity, frames[|frames| - 1])
  }

  ghost predicate AllOfLength(frames: seq<seq<byte>>, length: nat) {
    forall i :: 0 <= i < |frames| ==> |frames[i]| == length
  }

  lemma {:induction false} JoinedLength(frames: seq<seq<byte>>, length: nat)
    requires AllOfLength(frames, length)
    ensures |Joined(frames)| == |frames| * length
  {
    if frames != [] {
      JoinedLength(frames[..|frames| - 1], length);
      assert |frames| * length == (|frames| - 1) * length + length;
    }
  }

  /** How many frames fit. */
  function Fitting(space: nat, length: nat, count: nat): (m: nat)
    requires length > 0
    ensures m <= count
  {
    if space / length < count then space / length else count
  }

  lemma FitsIff(space: nat, length: nat, k: nat)
    requires length > 0
    ensures k * length <= space <==> k <= space / length
  {
    var q := space / length;
    assert space == q * length + space % length;
    if k <= q {
      assert (q - k) * length >= 0;
      assert q * length == (q - k) * length + k * length;
    } else {
      assert (k - q - 1) * length >= 0;
      assert k * length == (k - q - 1) * length + q * length + length;
    }
  }

  lemma FittingStep(space: nat, length: nat, n: nat)
    requires length > 0
    ensures var m := Fitting(space, length, n);
            && m * length <= space && (m < n ==> space < m * length + length)
            && Fitting(space, length, n + 1) == if m == n && n * length + length <= space then n + 1 else m
  {
    var m := Fitting(space, length, n);
    FitsIff(space, length, m);
    FitsIff(space, length, m + 1);
    assert (m + 1) * length == m * length + length;
  }

  /** For frames of one length, the buffer keeps what it held followed by the first frames that fit, in order. */
  lemma {:induction false} WritesKeepTheFirstFrames(
    content: seq<byte>, capacity: nat, frames: seq<seq<byte>>, length: nat)
    requires 0 < |content| <= capacity && length > 0 && AllOfLength(frames, length)
    ensures WrittenAll(content, capacity, frames)
         == content + Joined(frames[..Fitting(capacity - |content|, length, |frames|)])
  {
    var space := capacity - |content|;
    if frames == [] {
      assert frames[..0] == [];
    } else {
      var n := |frames| - 1;
      var m := Fitting(space, length, n);
      WritesKeepTheFirstFrames(content, capacity, frames[..n], length);
      assert frames[..n][..m] == frames[..m];
      JoinedLength(frames[..m], length);
      FittingStep(space, length, n);
      if m == n && n * length + length <= space {
        assert frames[..n + 1] == frames;
      }
    }
  }

  class RecordBuffer {
    const memoryBuf: array<byte>
    var n: nat

    ghost predicate Valid()
      reads this
    {
      n <= memoryBuf.Length
    }

    ghost function Contents(): seq<byte>
      requires Valid()
      reads this, memoryBuf
    {
      memoryBuf[..n]
    }

    /** Starts behind the header already placed in the memory. */
    constructor (memoryBuf: array<byte>, n: nat)
      requires n <= memoryBuf.Length
      ensures Valid() && this.memoryBuf == memoryBuf && this.n == n
    {
      this.memoryBuf, this.n := memoryBuf, n;
    }

    method Write(b: seq<byte>) returns (written: nat, err: WriteError)
      requires Valid()
      modifies this, memoryBuf
      ensures Valid() && Contents() == Written(old(Contents()), memoryBuf.Length, b)
      ensures err == Ok <==> |b| < memoryBuf.Length - old(n)
      ensures written == if err == Ok then |b| else 0
      ensures err == UnexpectedEOF <==> |b| >= memoryBuf.Length - old(n) && old(n) == 0
    {
      var avail := memoryBuf.Length - n;
      if avail <= |b| {
        if n == 0 {
          return 0, UnexpectedEOF;
        }
        if avail == |b| {
          CopyIn(b);
        }
        return 0, ClosedPipe;
      }
      CopyIn(b);
      return |b|, Ok;
    }

    method CopyIn(b: seq<byte>)
      requires Valid() && |b| <= memoryBuf.Length - n
      modifies this, memoryBuf
      ensures Valid() && Contents() == old(Contents()) + b
    {
      forall k | 0 <= k < |b| {
        memoryBuf[n + k] := b[k];
      }
      n := n + |b|;
    }

    /** `media.Copy`: writes frame after frame until the buffer reports an error. */
    method CopyFrames(frames: seq<seq<byte>>, ghost length: nat)
      requires Valid() && n > 0 && length > 0 && AllOfLength(frames, length)
      modifies this, memoryBuf
      ensures Valid()
      ensures Contents() == WrittenAll(old(Contents()), memoryBuf.Length, frames)
    {
      for i := 0 to |frames|
        invariant Valid() && n > 0
        invariant Contents() == WrittenAll(old(Contents()), memoryBuf.Length, frames[..i])
      {
        assert frames[..i + 1][..i] == frames[..i];
        var _, err := Write(frames[i]);
        if err != Ok {
          FullStaysFull(old(Contents()), memoryBuf.Length, frames, i + 1, length);
          return;
        }
      }
      assert frames[..|frames|] == frames;
    }
  }

  lemma {:induction false} FullStaysFull(content: seq<byte>, capacity: nat, frames: seq<seq<byte>>, i: nat, length: nat)
    requires |content| <= capacity && i <= |frames| && AllOfLength(frames, length)
    requires capacity - |WrittenAll(content, capacity, frames[..i])| < length
    ensures WrittenAll(content, capacity, frames) == WrittenAll(content, capacity, frames[..i])
    decreases |frames|
  {
    if i == |frames| {
      assert frames[..i] == frames;
    } else {
      assert frames[..|frames| - 1][..i] == frames[..i];
      FullStaysFull(content, capacity, frames[..|frames| - 1], i, length);
    }
  }

  /**
   The "listen" operation: the memory holds the header and room for `space` bytes of
   audio. The three consistency checks that would panic always pass, and the result is
   the header followed by the audio, raw or as the WAV bytes made from it.
   */
  method Record(
    id: seq<byte>, space: nat, frames: seq<seq<byte>>, ghost length: nat, wav: bool, wavOf: seq<byte> -> seq<byte>)
    returns (recording: seq<byte>)
    requires length > 0 && AllOfLength(frames, length)
    ensures var audio := Joined(frames[..Fitting(space, length, |frames|)]);
            recording == Header(id) + if wav then wavOf(audio) else audio
  {
    var metadataSize := 5 + |id|;
    var buffer := NewBuffer(id, space);
    WritesKeepTheFirstFrames(Header(id), buffer.memoryBuf.Length, frames, length);
    buffer.CopyFrames(frames, length);
    recording := buffer.memoryBuf[..buffer.n];
    HeaderParts(id, Joined(frames[..Fitting(space, length, |frames|)]));
    assert metadataSize <= |recording|;
    assert recording[1..5] == Encode32(|id|);
    assert recording[5..5 + |id|] == id;
    if wav {
      var out, size := AppendInPlace(buffer.memoryBuf, metadataSize, wavOf(recording[metadataSize..]));
      recording := out[..size];
    }
  }

  lemma HeaderParts(id: seq<byte>, audio: seq<byte>)
    ensures var rec := Header(id) + audio;
            && rec[1..5] == Encode32(|id|) && rec[5..5 + |id|] == id
            && rec[..5 + |id|] == Header(id) && rec[5 + |id|..] == audio
  {
  }

  method NewBuffer(id: seq<byte>, space: nat) returns (buffer: RecordBuffer)
    ensures fresh(buffer) && fresh(buffer.memoryBuf) && buffer.Valid()
    ensures buffer.memoryBuf.Length == 5 + |id| + space && buffer.Contents() == Header(id)
  {
    var memory := new byte[5 + |id| + space](_ => 0);
    var header := Header(id);
    forall k | 0 <= k < |header| {
      memory[k] := header[k];
    }
    buffer := new RecordBuffer(memory, |header|);
    assert memory[..|header|] == header;
  }

  /** Go's `append(recording[:n], tail...)`: into the same memory when it fits, else into new memory. */
  method AppendInPlace(memory: array<byte>, n: nat, tail: seq<byte>) returns (out: array<byte>, size: nat)
    requires n <= memory.Length
    modifies memory
    ensures size == n + |tail| <= out.Length
    ensures out[..size] == old(memory[..n]) + tail
    ensures out == memory || fresh(out)
  {
    size := n + |tail|;
    if size <= memory.Length {
      out := memory;
    } else {
      out := new byte[size](_ => 0);
      forall k | 0 <= k < n {
        out[k] := memory[k];
      }
    }
    forall k | 0 <= k < |tail| {
      out[n + k] := tail[k];
    }
    assert forall k :: 0 <= k < n ==> out[k] == old(memory[k]);
  }
}
