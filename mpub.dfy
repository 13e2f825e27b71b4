/**
 * The MPUB (multi-publish) command's wire encoding: a text header line
 * followed by a big-endian size field, a message count, and each message
 * as a 4-byte big-endian length followed by its bytes.
 */
module Mpub {
  import opened Wrappers
  import opened JavaNumbers
  import opened JavaStrings
  import opened Entity
  import JavaNio

  predicate IsAscii(s: string) {
    forall i :: 0 <= i < |s| ==> s[i] < 128 as char
  }

  /** `getHeader()`: `"MPUB "`, the topic text, `" " + partition` when the topic has one, and a newline. */
  function HeaderText(t: Topic): (h: string)
  {
    "MPUB " + t.text + (if t.HasPartition() then " " + DecimalString(t.partition.value as int) else "") + "\n"
  }

  /**
   * Reads a topic back from a header line: the text after `"MPUB "` up to
   * the first space, then the partition id in decimal if there is a space.
   */
  function ParseHeader(h: string): Option<Topic> {
    if |h| < 6 || h[..5] != "MPUB " || h[|h| - 1] != '\n' then None
    else
      var line := h[5..|h| - 1];
      var text := UpTo(line, ' ');
      if |text| == |line| then Some(Topic(text, None))
      else
        var digits := line[|text| + 1..];
        if |digits| >= 1 && (forall c <- digits :: c == '-' || '0' <= c <= '9')
           && INT32_MIN <= DecimalValue(digits) <= INT32_MAX
        then Some(Topic(text, Some(DecimalValue(digits) as int32)))
        else None
  }

  /** A topic whose text has no space is recovered from its header, partition included. */
  lemma HeaderRoundTrip(t: Topic)
    requires ' ' !in t.text
    ensures ParseHeader(HeaderText(t)) == Some(t)
  {
    var h := HeaderText(t);
    var line := h[5..|h| - 1];
    assert h[..5] == "MPUB " && h[|h| - 1] == '\n';
    if t.HasPartition() {
      var d := DecimalString(t.partition.value as int);
      assert line == t.text + [' '] + d;
      UpToConcat(t.text, ' ', d);
      assert line[|t.text| + 1..] == d;
      DecimalRoundTrip(t.partition.value as int);
    } else {
      assert line == t.text;
      var u := UpTo(line, ' ');
      assert ' ' !in line;
      assert u == line;
    }
  }

  lemma HeaderTextIsAscii(t: Topic)
    requires IsAscii(t.text)
    ensures IsAscii(HeaderText(t))
  {
  }

  /** `String.getBytes` on ASCII text: one byte per character, with the character's code. */
  function AsciiBytes(s: string): (b: seq<byte>)
    requires IsAscii(s)
    ensures |b| == |s|
  {
    seq(|s|, i requires 0 <= i < |s| => s[i] as int as byte)
  }

  /** The header bytes of the command. */
  function HeaderBytes(t: Topic): (b: seq<byte>)
    requires IsAscii(t.text)
    ensures |b| == |HeaderText(t)|
  {
    HeaderTextIsAscii(t);
    AsciiBytes(HeaderText(t))
  }

  /** The room the messages take once each carries its 4-byte length: the sum of 4 + |m|. */
  function FramesSize(ms: seq<seq<byte>>): (n: nat)
    ensures n >= 4 * |ms|
  {
    if ms == [] then 0 else 4 + |ms[0]| + FramesSize(ms[1..])
  }

  /**
   * The value this code writes in the size field: 4 for the count field,
   * 4 for the size field itself, and the frames.
   */
  function CodeBodySize(ms: seq<seq<byte>>): nat {
    8 + FramesSize(ms)
  }

  /**
   * The body size the NSQ TCP protocol's MPUB layout calls for: the count
   * field and the frames, that is, everything after the size field.
   */
  function ProtocolBodySize(ms: seq<seq<byte>>): nat {
    4 + FramesSize(ms)
  }

  /**
   * What the encoder relies on: ASCII topic text (one byte per character in
   * the command charset) and a total length that fits a Java `int`, so the
   * running `bodySize` and the buffer size do not overflow.
   */
  predicate Encodable(t: Topic, ms: seq<seq<byte>>) {
    IsAscii(t.text) && |HeaderText(t)| + CodeBodySize(ms) <= INT32_MAX
  }

  /** Each message as its 4-byte big-endian length followed by its bytes, in list order. */
  function Frames(ms: seq<seq<byte>>): (r: seq<byte>)
    requires FramesSize(ms) < TWO_32
    ensures |r| == FramesSize(ms)
  {
    if ms == [] then [] else BigEndian32(|ms[0]|) + ms[0] + Frames(ms[1..])
  }

  /** The bytes `getBytes()` returns: the header, 8 bytes of size and count, then the frames. */
  function Encoding(t: Topic, ms: seq<seq<byte>>): (e: seq<byte>)
    requires Encodable(t, ms)
    ensures |e| == |HeaderText(t)| + 8 + FramesSize(ms)
  {
    HeaderBytes(t) + BigEndian32(CodeBodySize(ms)) + BigEndian32(|ms|) + Frames(ms)
  }

  /** Reads `count` frames that fill `b` exactly. */
  function ParseFrames(count: nat, b: seq<byte>): Option<seq<seq<byte>>>
    decreases count
  {
    if count == 0 then (if b == [] then Some([]) else None)
    else if |b| < 4 then None
    else
      var n := ReadBigEndian32(b[..4]);
      if |b| < 4 + n then None
      else
        match ParseFrames(count - 1, b[4 + n..])
        case None => None
        case Some(rest) => Some([b[4..4 + n]] + rest)
  }

  /**
   * Reads what follows the header under this code's convention: a size
   * field equal to the number of bytes from the size field on, the count,
   * then exactly that many frames.
   */
  function ParseBody(b: seq<byte>): Option<seq<seq<byte>>> {
    if |b| < 8 || ReadBigEndian32(b[..4]) != |b| then None
    else ParseFrames(ReadBigEndian32(b[4..8]), b[8..])
  }

  lemma {:induction false} FramesSizeAppend(ms: seq<seq<byte>>, m: seq<byte>)
    ensures FramesSize(ms + [m]) == FramesSize(ms) + 4 + |m|
  {
    if ms != [] {
      assert (ms + [m])[1..] == ms[1..] + [m];
      FramesSizeAppend(ms[1..], m);
    }
  }

  lemma {:induction false} FramesAppend(ms: seq<seq<byte>>, m: seq<byte>)
    requires FramesSize(ms + [m]) < TWO_32
    ensures FramesSize(ms) + 4 + |m| < TWO_32
    ensures Frames(ms + [m]) == Frames(ms) + BigEndian32(|m|) + m
  {
    FramesSizeAppend(ms, m);
    if ms != [] {
      assert (ms + [m])[1..] == ms[1..] + [m];
      FramesSizeAppend(ms[1..], m);
      FramesAppend(ms[1..], m);
    }
  }

  /** Parsing the frames recovers the message list. */
  lemma {:induction false} ParseFramesOfFrames(ms: seq<seq<byte>>)
    requires FramesSize(ms) < TWO_32
    ensures ParseFrames(|ms|, Frames(ms)) == Some(ms)
  {
    if ms != [] {
      var b := Frames(ms);
      var n := |ms[0]|;
      assert b[..4] == BigEndian32(n);
      ReadBigEndian32OfWrite(n);
      assert b[4..4 + n] == ms[0];
      assert b[4 + n..] == Frames(ms[1..]);
      ParseFramesOfFrames(ms[1..]);
      assert ms == [ms[0]] + ms[1..];
    }
  }

  /** The header, then the size field, then the count field, then the frames. */
  lemma EncodingFields(t: Topic, ms: seq<seq<byte>>)
    requires Encodable(t, ms)
    ensures var e, h := Encoding(t, ms), |HeaderText(t)|;
      && e[..h] == HeaderBytes(t)
      && ReadBigEndian32(e[h..h + 4]) == 8 + FramesSize(ms)
      && ReadBigEndian32(e[h + 4..h + 8]) == |ms|
      && e[h + 8..] == Frames(ms)
  {
    EncodingSlices(t, ms);
    ReadBigEndian32OfWrite(CodeBodySize(ms));
    ReadBigEndian32OfWrite(|ms|);
  }

  lemma EncodingSlices(t: Topic, ms: seq<seq<byte>>)
    requires Encodable(t, ms)
    ensures var e, h := Encoding(t, ms), |HeaderText(t)|;
      && e[..h] == HeaderBytes(t)
      && e[h..h + 4] == BigEndian32(CodeBodySize(ms))
      && e[h + 4..h + 8] == BigEndian32(|ms|)
      && e[h + 8..] == Frames(ms)
  {
    var hb, sf, cf, fs := HeaderBytes(t), BigEndian32(CodeBodySize(ms)), BigEndian32(|ms|), Frames(ms);
    var e := Encoding(t, ms);
    assert e == hb + sf + cf + fs && |hb| == |HeaderText(t)|;
    ConcatSlices(hb, sf, cf, fs);
  }

  lemma ConcatAssoc(a: seq<byte>, b: seq<byte>, c: seq<byte>, d: seq<byte>)
    ensures a + b + c + d == a + (b + c + d)
  {
  }

  lemma ConcatSlices(a: seq<byte>, b: seq<byte>, c: seq<byte>, d: seq<byte>)
    requires |b| == 4 && |c| == 4
    ensures var e, h := a + b + c + d, |a|;
      e[..h] == a && e[h..h + 4] == b && e[h + 4..h + 8] == c && e[h + 8..] == d
  {
  }

  /**
   * The size field counts its own four bytes: it equals the number of bytes
   * from the size field to the end, which is 4 more than the body size of
   * the NSQ TCP protocol's MPUB layout (count field and frames only).
   */
  lemma SizeFieldCountsItself(t: Topic, ms: seq<seq<byte>>)
    requires Encodable(t, ms)
    ensures var e, h := Encoding(t, ms), |HeaderText(t)|;
      && ReadBigEndian32(e[h..h + 4]) == |e| - h
      && ReadBigEndian32(e[h..h + 4]) == ProtocolBodySize(ms) + 4
  {
    EncodingFields(t, ms);
  }

  /** Everything after the header parses back to exactly the message list. */
  lemma BodyRoundTrip(t: Topic, ms: seq<seq<byte>>)
    requires Encodable(t, ms)
    ensures ParseBody(Encoding(t, ms)[|HeaderText(t)|..]) == Some(ms)
  {
    var e, h := Encoding(t, ms), |HeaderText(t)|;
    EncodingFields(t, ms);
    var b := e[h..];
    assert b[..4] == e[h..h + 4] && b[4..8] == e[h + 4..h + 8] && b[8..] == e[h + 8..];
    ParseFramesOfFrames(ms);
  }

  /** Message `i`'s frame starts after the frames of the messages before it. */
  lemma FrameAt(ms: seq<seq<byte>>, i: nat)
    requires FramesSize(ms) < TWO_32
    requires i < |ms|
    ensures var off, f := FramesSize(ms[..i]), Frames(ms);
      && off + 4 + |ms[i]| <= |f|
      && ReadBigEndian32(f[off..off + 4]) == |ms[i]|
      && f[off + 4..off + 4 + |ms[i]|] == ms[i]
  {
    FrameLengthAt(ms, i);
    ReadBigEndian32OfWrite(|ms[i]|);
    FramePayloadAt(ms, i);
  }

  /** The length field of message `i` sits right after the frames of the messages before it. */
  lemma FrameLengthAt(ms: seq<seq<byte>>, i: nat)
    requires FramesSize(ms) < TWO_32
    requires i < |ms|
    ensures var off, f := FramesSize(ms[..i]), Frames(ms);
      && off + 4 + |ms[i]| <= |f|
      && f[off..off + 4] == BigEndian32(|ms[i]|)
  {
    FrameBeginsAt(ms, i);
    PrefixFields(Frames(ms[..i]), BigEndian32(|ms[i]|), ms[i], Frames(ms));
  }

  /** The bytes of message `i` follow its length field. */
  lemma FramePayloadAt(ms: seq<seq<byte>>, i: nat)
    requires FramesSize(ms) < TWO_32
    requires i < |ms|
    ensures var off, f := FramesSize(ms[..i]), Frames(ms);
      && off + 4 + |ms[i]| <= |f|
      && f[off + 4..off + 4 + |ms[i]|] == ms[i]
  {
    FrameBeginsAt(ms, i);
    PrefixFields(Frames(ms[..i]), BigEndian32(|ms[i]|), ms[i], Frames(ms));
  }

  lemma FrameBeginsAt(ms: seq<seq<byte>>, i: nat)
    requires FramesSize(ms) < TWO_32
    requires i < |ms|
    ensures FramesSize(ms[..i]) < TWO_32
    ensures |ms[i]| < TWO_32
    ensures Frames(ms[..i]) + BigEndian32(|ms[i]|) + ms[i] <= Frames(ms)
  {
    FramesStep(ms, i);
    FramesPrefix(ms, i + 1);
  }

  /** The frames of the first `j` messages begin the frames of all of them. */
  lemma {:induction false} FramesPrefix(ms: seq<seq<byte>>, j: nat)
    requires FramesSize(ms) < TWO_32
    requires j <= |ms|
    ensures FramesSize(ms[..j]) <= FramesSize(ms)
    ensures Frames(ms[..j]) <= Frames(ms)
    decreases |ms| - j
  {
    FramesSizeLe(ms[..j], ms);
    if j == |ms| {
      assert ms[..j] == ms;
    } else {
      FramesStep(ms, j);
      FramesPrefix(ms, j + 1);
    }
  }

  /** Where `a + b + c` begins `f`, `b` and `c` sit in `f` right after `a`. */
  lemma PrefixFields(a: seq<byte>, b: seq<byte>, c: seq<byte>, f: seq<byte>)
    requires a + b + c <= f
    ensures |a| + |b| + |c| <= |f|
    ensures f[|a|..|a| + |b|] == b
    ensures f[|a| + |b|..|a| + |b| + |c|] == c
  {
    var p := a + b + c;
    assert f[..|p|] == p;
    assert f[|a|..|a| + |b|] == p[|a|..|a| + |b|];
    assert f[|a| + |b|..|a| + |b| + |c|] == p[|a| + |b|..|p|];
  }

  /** An empty list encodes as the header, a size of 8 and a count of 0. */
  lemma EmptyEncoding(t: Topic)
    requires Encodable(t, [])
    ensures Encoding(t, []) == HeaderBytes(t) + [0, 0, 0, 8, 0, 0, 0, 0]
  {
  }

  /**
   * Topic "orders" with messages "a" and "bb": the size field holds 19,
   * where the protocol's layout would hold 15.
   */
  lemma OrdersExample()
    ensures var ms: seq<seq<byte>> := [[97], [98, 98]];
      && Encodable(Topic("orders", None), ms)
      && HeaderText(Topic("orders", None)) == "MPUB orders\n"
      && var e := Encoding(Topic("orders", None), ms);
      && |e| == 12 + 4 + 4 + 11
      && ReadBigEndian32(e[12..16]) == 19
      && ReadBigEndian32(e[16..20]) == 2
      && e[20..] == [0, 0, 0, 1, 97, 0, 0, 0, 2, 98, 98]
      && ProtocolBodySize(ms) == 15
  {
    var ms: seq<seq<byte>> := [[97], [98, 98]];
    var t := Topic("orders", None);
    OrdersFrames();
    assert HeaderText(t) == "MPUB orders\n";
    EncodingFields(t, ms);
  }

  lemma OrdersFrames()
    ensures var ms: seq<seq<byte>> := [[97], [98, 98]];
      FramesSize(ms) == 11 && Frames(ms) == [0, 0, 0, 1, 97, 0, 0, 0, 2, 98, 98]
  {
    var ms: seq<seq<byte>> := [[97], [98, 98]];
    assert ms[1..] == [[98, 98]] && ms[1..][1..] == [];
    assert BigEndian32(1) == [0, 0, 0, 1] && BigEndian32(2) == [0, 0, 0, 2];
  }

  /** The MPUB command: a topic and the ordered list of message bodies. */
  datatype MpubCommand = MpubCommand(topic: Topic, messages: seq<seq<byte>>) {

    /** `getHeader()`: the command line, from which the topic comes back when its text has no space. */
    function GetHeader(): (h: string)
      ensures |h| >= 6 && h[..5] == "MPUB " && h[|h| - 1] == '\n'
      ensures ' ' !in topic.text ==> ParseHeader(h) == Some(topic)
    {
      var h := HeaderText(topic);
      assert h[..5] == "MPUB " && h[|h| - 1] == '\n';
      if ' ' !in topic.text then HeaderRoundTrip(topic); h else h
    }

    /** `getBody()`: the list given at construction, which is what the encoded body carries. */
    function GetBody(): (ms: seq<seq<byte>>)
      ensures ms == messages
      ensures Encodable(topic, messages) ==> ParseBody(Encoding(topic, messages)[|HeaderText(topic)|..]) == Some(ms)
    {
      if Encodable(topic, messages) then BodyRoundTrip(topic, messages); messages else messages
    }

    /** `getBytes()`: sizes the buffer in one pass over the messages, then fills it in a second. */
    method GetBytes() returns (bytes: array<byte>)
      requires Encodable(topic, messages)
      ensures fresh(bytes)
      ensures bytes[..] == Encoding(topic, GetBody())
    {
      var header := HeaderBytes(topic);
      var bodyL := GetBody();
      var bodySize := BodySize(bodyL);
      var buf := new JavaNio.ByteBuffer.Allocate(|header| + bodySize as int);
      buf.Put(header);
      buf.PutInt(bodySize);
      assert buf.Written() == header + BigEndian32(CodeBodySize(bodyL));
      buf.PutInt(|bodyL| as int32);
      ghost var fields := buf.Written();
      assert fields == header + BigEndian32(CodeBodySize(bodyL)) + BigEndian32(|bodyL|);
      PutFrames(buf, bodyL);
      bytes := buf.data;
      assert bytes[..] == buf.Written() == fields + Frames(bodyL);
    }
  }

  /** The encoder's first loop: 4 + 4, plus 4 and the length for each message. */
  method BodySize(ms: seq<seq<byte>>) returns (n: int32)
    requires CodeBodySize(ms) <= INT32_MAX
    ensures n as int == CodeBodySize(ms)
  {
    var bodySize: int32 := 4 + 4;
    if |ms| > 0 {
      var i := 0;
      while i < |ms|
        invariant 0 <= i <= |ms|
        invariant bodySize as int == 8 + FramesSize(ms[..i])
      {
        FramesStep(ms, i);
        bodySize := bodySize + 4;
        bodySize := bodySize + |ms[i]| as int32;
        i := i + 1;
      }
      assert ms[..i] == ms;
    }
    n := bodySize;
  }

  /** The encoder's second loop: each message's length with `putInt`, then its bytes with `put`. */
  method PutFrames(buf: JavaNio.ByteBuffer, ms: seq<seq<byte>>)
    requires buf.Valid()
    requires FramesSize(ms) < TWO_32 && FramesSize(ms) <= INT32_MAX
    requires buf.position + FramesSize(ms) <= buf.data.Length
    modifies buf, buf.data
    ensures buf.Valid()
    ensures buf.position == old(buf.position) + FramesSize(ms)
    ensures buf.Written() == old(buf.Written()) + Frames(ms)
  {
    ghost var before := buf.Written();
    var j := 0;
    assert ms[..0] == [];
    while j < |ms|
      invariant 0 <= j <= |ms|
      invariant buf.Valid()
      invariant FramesSize(ms[..j]) <= FramesSize(ms)
      invariant buf.position == old(buf.position) + FramesSize(ms[..j])
      invariant buf.Written() == before + Frames(ms[..j])
    {
      FramesStep(ms, j);
      ghost var done := Frames(ms[..j]);
      buf.PutInt(|ms[j]| as int32);
      buf.Put(ms[j]);
      ConcatAssoc(before, done, BigEndian32(|ms[j]|), ms[j]);
      j := j + 1;
    }
    assert ms[..j] == ms;
  }

  /** One more message framed: what the encoder's second loop appends. */
  lemma FramesStep(ms: seq<seq<byte>>, j: nat)
    requires j < |ms| && FramesSize(ms) < TWO_32
    ensures FramesSize(ms[..j + 1]) == FramesSize(ms[..j]) + 4 + |ms[j]| <= FramesSize(ms)
    ensures Frames(ms[..j + 1]) == Frames(ms[..j]) + BigEndian32(|ms[j]|) + ms[j]
  {
    assert ms[..j + 1] == ms[..j] + [ms[j]];
    FramesSizeAppend(ms[..j], ms[j]);
    FramesSizeLe(ms[..j + 1], ms);
    FramesAppend(ms[..j], ms[j]);
  }

  /** A prefix of the message list occupies no more room than the whole list. */
  lemma {:induction false} FramesSizeLe(prefix: seq<seq<byte>>, ms: seq<seq<byte>>)
    requires prefix <= ms
    ensures FramesSize(prefix) <= FramesSize(ms)
  {
    if prefix != [] {
      assert prefix[1..] <= ms[1..];
      FramesSizeLe(prefix[1..], ms[1..]);
    }
  }
}
