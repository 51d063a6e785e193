/** Lines on the wire (server/textserver.go, readLine): bounded reading in fragments, and the
    size in bytes of what the client writes. */
module Lines {
  import opened Types
  import opened Text
  import opened Codec

  type byte = x: int | 0 <= x < 256

  const LF: byte := 10
  const CR: byte := 13

  // ------------------------------------------------------------- text as bytes

  function Utf8Char(c: char): (b: seq<byte>)
    ensures 1 <= |b| <= 4
    ensures c as int < 128 ==> b == [c as int]
    ensures c as int >= 128 ==> forall i :: 0 <= i < |b| ==> b[i] >= 128
  {
    var n := c as int;
    var n1 := n / 0x40;
    var n2 := n1 / 0x40;
    var n3 := n2 / 0x40;
    if n < 0x80 then [n]
    else if n < 0x800 then [0xC0 + n1, 0x80 + n % 0x40]
    else if n < 0x1_0000 then [0xE0 + n2, 0x80 + n1 % 0x40, 0x80 + n % 0x40]
    else [0xF0 + n3, 0x80 + n2 % 0x40, 0x80 + n1 % 0x40, 0x80 + n % 0x40]
  }

  /** The six bits a later byte of a character carries. */
  function Six(b: byte): int {
    b as int - 0x80
  }

  /** The form of RFC 3629, section 3: the fewest bytes that do, a first byte that tells their
      number, and six bits in each of the others. */
  lemma Utf8Form(c: char)
    ensures var b, n := Utf8Char(c), c as int;
            && |b| == (if n < 0x80 then 1 else if n < 0x800 then 2 else if n < 0x1_0000 then 3 else 4)
            && (|b| == 1 ==> b[0] == n)
            && (|b| == 2 ==> 0xC0 <= b[0] < 0xE0 && n == 64 * (b[0] as int - 0xC0) + Six(b[1]))
            && (|b| == 3 ==> 0xE0 <= b[0] < 0xF0 && n == 64 * (64 * (b[0] as int - 0xE0) + Six(b[1])) + Six(b[2]))
            && (|b| == 4 ==>
                  && 0xF0 <= b[0] < 0xF8
                  && n == 64 * (64 * (64 * (b[0] as int - 0xF0) + Six(b[1])) + Six(b[2])) + Six(b[3]))
            && forall i :: 1 <= i < |b| ==> 0x80 <= b[i] < 0xC0
    ensures Utf8("") == [] && forall s: string :: Utf8(s + [c]) == Utf8(s) + Utf8Char(c)
  {
    forall s: string
      ensures Utf8(s + [c]) == Utf8(s) + Utf8Char(c)
    {
      assert (s + [c])[..|s|] == s;
    }
  }

  function Utf8(s: string): seq<byte> {
    if s == "" then [] else Utf8(s[..|s| - 1]) + Utf8Char(s[|s| - 1])
  }

  /** How many bytes a character that starts with this byte takes. */
  function Width(lead: byte): nat {
    if lead < 0x80 then 1 else if lead < 0xE0 then 2 else if lead < 0xF0 then 3 else 4
  }

  function CodePoint(b: seq<byte>): int
    requires 1 <= |b| <= 4
  {
    if |b| == 1 then b[0]
    else if |b| == 2 then Shift(b[0] as int - 0xC0, b[1])
    else if |b| == 3 then Shift(Shift(b[0] as int - 0xE0, b[1]), b[2])
    else Shift(Shift(Shift(b[0] as int - 0xF0, b[1]), b[2]), b[3])
  }

  /** Six more bits. */
  function Shift(n: int, next: byte): int {
    n * 0x40 + (next as int - 0x80)
  }

  /** The first character and its width; a byte that starts none reads as U+FFFD. */
  function DecodeChar(b: seq<byte>): (r: (char, nat))
    requires b != []
    ensures 1 <= r.1 <= |b|
  {
    var w := Width(b[0]);
    if w > |b| then ('\U{FFFD}', 1)
    else
      var n := CodePoint(b[..w]);
      if (0 <= n < 0xD800 || 0xE000 <= n < 0x11_0000) && Utf8Char(n as char) == b[..w] then (n as char, w)
      else ('\U{FFFD}', 1)
  }

  function Decode(b: seq<byte>): string {
    if b == [] then "" else [DecodeChar(b).0] + Decode(b[DecodeChar(b).1..])
  }

  lemma CodePointOfChar(c: char)
    ensures Width(Utf8Char(c)[0]) == |Utf8Char(c)| && CodePoint(Utf8Char(c)) == c as int
  {
  }

  lemma DecodeFirst(c: char, rest: seq<byte>)
    ensures DecodeChar(Utf8Char(c) + rest) == (c, |Utf8Char(c)|)
  {
    CodePointOfChar(c);
    assert (Utf8Char(c) + rest)[..|Utf8Char(c)|] == Utf8Char(c);
  }

  lemma {:induction false} Utf8First(s: string)
    requires s != ""
    ensures Utf8(s) == Utf8Char(s[0]) + Utf8(s[1..])
  {
    var last := |s| - 1;
    if last == 0 {
      assert s[..0] == "" && s[1..] == "";
    } else {
      Utf8First(s[..last]);
      assert s[..last][1..] == s[1..][..last - 1];
      RegroupBytes(Utf8Char(s[0]), Utf8(s[1..][..last - 1]), Utf8Char(s[last]));
    }
  }

  lemma RegroupBytes(a: seq<byte>, b: seq<byte>, c: seq<byte>)
    ensures a + (b + c) == (a + b) + c
  {
  }

  /** Text sent as bytes is read back as the same text. */
  lemma {:induction false} DecodeOfUtf8(s: string)
    ensures Decode(Utf8(s)) == s
  {
    if s != "" {
      Utf8First(s);
      DecodeFirst(s[0], Utf8(s[1..]));
      DecodeOfUtf8(s[1..]);
      assert Utf8(s)[|Utf8Char(s[0])|..] == Utf8(s[1..]);
      assert [s[0]] + s[1..] == s;
    }
  }

  lemma {:induction false} Utf8Append(s: string, t: string)
    ensures |Utf8(s + t)| == |Utf8(s)| + |Utf8(t)|
  {
    if t == "" {
      assert s + t == s;
    } else {
      var front, c := t[..|t| - 1], t[|t| - 1];
      Utf8Append(s, front);
      assert (s + t)[..|s + t| - 1] == s + front;
    }
  }

  lemma {:induction false} OneLine(s: string)
    requires '\n' !in s
    ensures LF !in Utf8(s)
    ensures s != "" && s[|s| - 1] != '\r' ==> Utf8(s) != [] && Utf8(s)[|Utf8(s)| - 1] != CR
  {
    if s != "" {
      OneLine(s[..|s| - 1]);
      assert s[|s| - 1] in s;
    }
  }

  // -------------------------------------------------------------- reading

  /** What one ReadSlice returns: up to a newline, a full buffer without one, or what came
      before the connection failed. */
  datatype Fragment = Whole(bytes: seq<byte>) | Full(bytes: seq<byte>) | Broken(bytes: seq<byte>)

  datatype Read = Line(bytes: seq<byte>) | TooLong | Failed

  /** The reader's fragments up to the one that ends the line or the connection. */
  predicate Fragments(frags: seq<Fragment>) {
    && frags != []
    && (forall i :: 0 <= i < |frags| - 1 ==> frags[i].Full? && LF !in frags[i].bytes)
    && var last := frags[|frags| - 1];
       if last.Whole? then
         last.bytes != [] && last.bytes[|last.bytes| - 1] == LF && LF !in last.bytes[..|last.bytes| - 1]
       else last.Broken? && LF !in last.bytes
  }

  function Content(frags: seq<Fragment>): seq<byte> {
    if frags == [] then [] else Content(frags[..|frags| - 1]) + frags[|frags| - 1].bytes
  }

  function TrimSuffix(b: seq<byte>, x: byte): seq<byte> {
    if b != [] && b[|b| - 1] == x then b[..|b| - 1] else b
  }

  /** What reading must give, whatever the fragments: one line of at most maxSize bytes,
      newline included. */
  function LineOf(content: seq<byte>, maxSize: int): Read {
    if |content| > maxSize then TooLong
    else if content != [] && content[|content| - 1] == LF then Line(TrimSuffix(TrimSuffix(content, LF), CR))
    else Failed
  }

  /** The fragment loop: it reads no further once the bound is passed, and what it returns does
      not depend on where the fragments were cut. */
  method ReadLine(frags: seq<Fragment>, maxSize: int) returns (r: Read, used: nat)
    requires Fragments(frags)
    ensures r == LineOf(Content(frags), maxSize)
    ensures 0 < used <= |frags| && (used > 1 ==> |Content(frags[..used - 1])| <= maxSize)
  {
    var buf: seq<byte> := [];
    used := 0;
    while true
      invariant used < |frags| && buf == Content(frags[..used])
      invariant used > 0 ==> |buf| <= maxSize
      decreases |frags| - used
    {
      var frag := frags[used];
      ContentStep(frags, used);
      buf := buf + frag.bytes;
      used := used + 1;
      if |buf| > maxSize {
        ContentGrows(frags, used);
        return TooLong, used;
      }
      match frag {
        case Whole(_) => break;
        case Full(_) =>
        case Broken(_) =>
          EndsAsLast(frags);
          return Failed, used;
      }
    }
    EndsAsLast(frags);
    r := Line(TrimSuffix(TrimSuffix(buf, LF), CR));
  }

  lemma ContentStep(frags: seq<Fragment>, n: nat)
    requires n < |frags|
    ensures Content(frags[..n + 1]) == Content(frags[..n]) + frags[n].bytes
    ensures n + 1 == |frags| ==> frags[..n + 1] == frags
  {
    assert frags[..n + 1][..n] == frags[..n];
  }

  lemma {:induction false} ContentGrows(frags: seq<Fragment>, n: nat)
    requires n <= |frags|
    ensures |Content(frags[..n])| <= |Content(frags)|
  {
    if n < |frags| {
      assert frags[..|frags| - 1][..n] == frags[..n];
      ContentGrows(frags[..|frags| - 1], n);
    } else {
      assert frags[..n] == frags;
    }
  }

  /** Only a last fragment with a newline makes the content end in one. */
  lemma {:induction false} NoEarlyNewline(frags: seq<Fragment>)
    requires forall i :: 0 <= i < |frags| ==> LF !in frags[i].bytes
    ensures LF !in Content(frags)
  {
    if frags != [] {
      NoEarlyNewline(frags[..|frags| - 1]);
    }
  }

  lemma EndsAsLast(frags: seq<Fragment>)
    requires Fragments(frags)
    ensures var c := Content(frags); (c != [] && c[|c| - 1] == LF) <==> frags[|frags| - 1].Whole?
  {
    NoEarlyNewline(frags[..|frags| - 1]);
  }

  /** What reading gives, byte by byte: the newline goes, and one carriage return before it; the
      bound counts both; a connection that fails before the newline gives no line. */
  lemma ReadInFull(b: seq<byte>, maxSize: int)
    requires LF !in b
    ensures LineOf(b + [13, 10], maxSize) == if |b| + 2 <= maxSize then Line(b) else TooLong
    ensures LineOf(b + [10], maxSize)
            == if |b| + 1 > maxSize then TooLong
               else if b != [] && b[|b| - 1] == 13 then Line(b[..|b| - 1]) else Line(b)
    ensures LineOf(b, maxSize) == if |b| <= maxSize then Failed else TooLong
  {
    assert (b + [LF])[..|b|] == b;
    assert (b + [CR, LF])[..|b| + 1] == b + [CR] && (b + [CR])[..|b|] == b;
  }

  /** A line sent with its newline is read back whole exactly if it fits the bound. */
  lemma WholeLine(s: string, maxSize: int)
    requires '\n' !in s && s != "" && s[|s| - 1] != '\r'
    ensures LineOf(Utf8(s + "\n"), maxSize) == if |Utf8(s)| + 1 <= maxSize then Line(Utf8(s)) else TooLong
  {
    OneLine(s);
    assert (s + "\n")[..|s|] == s;
    assert Utf8(s + "\n") == Utf8(s) + [LF];
  }

  // ------------------------------------------------------- the client's lines

  lemma {:induction false} SpacedIsOneLine(words: seq<string>)
    requires AllWords(words)
    ensures '\n' !in Spaced(words)
    ensures words != [] ==> Spaced(words) != "" && !IsSpace(Spaced(words)[|Spaced(words)| - 1])
  {
    if words != [] {
      SpacedIsOneLine(words[1..]);
      assert words[0] in words;
    }
  }

  /** A request line is one line: whatever valid keys it names, the server reads back all of
      it, as long as it is within the server's bound. */
  lemma RequestIsOneLine(es: seq<RequestEntry>, maxSize: int)
    requires ValidKeys(es)
    ensures LineOf(Utf8(Request(es) + "\n"), maxSize)
            == if |Utf8(Request(es))| + 1 <= maxSize then Line(Utf8(Request(es))) else TooLong
  {
    EncodedAreWords(es);
    SpacedIsOneLine(EncodeAll(es));
    WholeLine(Request(es), maxSize);
  }

  // ------------------------------------------------------ the server's lines

  /** What the client reads: everything up to the first newline, if there is one. */
  function FirstLine(b: seq<byte>): Option<seq<byte>> {
    if b == [] then None
    else if b[0] == LF then Some([LF])
    else
      var rest := FirstLine(b[1..]);
      if rest.None? then None else Some([b[0]] + rest.value)
  }

  lemma {:induction false} FirstLineOf(b: seq<byte>, rest: seq<byte>)
    requires LF !in b
    ensures FirstLine(b + ([LF] + rest)) == Some(b + [LF])
  {
    if b == [] {
      assert b + ([LF] + rest) == [LF] + rest && b + [LF] == [LF];
    } else {
      FirstLineOf(b[1..], rest);
      assert (b + ([LF] + rest))[1..] == b[1..] + ([LF] + rest);
      assert [b[0]] + (b[1..] + [LF]) == b + [LF];
    }
  }

  /** A line of text is read back whole, whatever follows it in the stream. */
  lemma ReplyIsRead(s: string, rest: seq<byte>)
    requires '\n' !in s
    ensures FirstLine(Utf8(s + "\n") + rest) == Some(Utf8(s + "\n")) && Decode(Utf8(s + "\n")) == s + "\n"
  {
    OneLine(s);
    assert (s + "\n")[..|s|] == s;
    assert Utf8(s + "\n") == Utf8(s) + [LF];
    assert (Utf8(s) + [LF]) + rest == Utf8(s) + ([LF] + rest);
    FirstLineOf(Utf8(s), rest);
    DecodeOfUtf8(s + "\n");
  }

  /** The server's answer to any request line is one line, whatever the line asks for. */
  lemma ResponseIsOneLine(tokens: seq<string>, reports: seq<ResponseEntry>)
    requires AllWords(tokens) && Genuine(reports, Parsed(tokens))
    ensures '\n' !in Response(Answers(tokens, reports))
  {
    AnswersAreWords(tokens, reports);
    SpacedIsOneLine(Answers(tokens, reports));
  }

  /** What an entry takes on the wire beside its key: five bars, four numbers of at most 20
      digits, the mode, and the space before it. */
  const MAX_ENCODED_ENTRY_OVERHEAD: nat := 4 * (1 + 20) + 1 + 1 + 1

  /** The space reserved for a request line before it is written. */
  function Reserved(es: seq<RequestEntry>): nat {
    if es == [] then |"THROTTLE"| + |"\n"|
    else Reserved(es[..|es| - 1]) + |Utf8(es[|es| - 1].key)| + MAX_ENCODED_ENTRY_OVERHEAD
  }

  lemma {:induction false} AsciiSize(s: string)
    requires forall i :: 0 <= i < |s| ==> s[i] as int < 128
    ensures |Utf8(s)| == |s|
  {
    if s != "" {
      AsciiSize(s[..|s| - 1]);
    }
  }

  lemma PieceSize(parts: seq<string>, p: string)
    requires parts != []
    ensures |Utf8(Joined(parts + [p]))| == |Utf8(Joined(parts))| + 1 + |Utf8(p)|
  {
    JoinedAppend(parts, p);
    Utf8Append(Joined(parts), "|" + p);
    Utf8Append("|", p);
    AsciiSize("|");
  }

  lemma IntSize(parts: seq<string>, v: int64) returns (more: seq<string>)
    requires parts != []
    ensures more == parts + [FormatInt(v)]
    ensures |Utf8(Joined(more))| <= |Utf8(Joined(parts))| + 1 + 20
  {
    more := parts + [FormatInt(v)];
    PieceSize(parts, FormatInt(v));
    IntFitsBuffer(v);
    AsciiSize(FormatInt(v));
  }

  lemma TwoInts(parts: seq<string>, v: int64, w: int64) returns (more: seq<string>)
    requires parts != []
    ensures more == parts + [FormatInt(v), FormatInt(w)]
    ensures |Utf8(Joined(more))| <= |Utf8(Joined(parts))| + 42
  {
    more := IntSize(parts, v);
    more := IntSize(more, w);
  }

  lemma NumbersSize(e: RequestEntry) returns (parts: seq<string>)
    ensures parts != [] && parts + [Mode(e.peek)] == EntryParts(e)
    ensures |Utf8(Joined(parts))| <= |Utf8(e.key)| + 84
  {
    assert Joined([e.key]) == e.key;
    var front := TwoInts([e.key], e.limit.capacity, EffectiveUnits(e.limit.rate.units));
    parts := TwoInts(front, e.limit.rate.period, EffectiveCost(e.cost));
  }

  lemma EntrySize(e: RequestEntry)
    ensures |Utf8(EncodeEntry(e))| + 1 <= |Utf8(e.key)| + MAX_ENCODED_ENTRY_OVERHEAD
  {
    var parts := NumbersSize(e);
    PieceSize(parts, Mode(e.peek));
    AsciiSize(Mode(e.peek));
  }

  lemma RequestAppend(es: seq<RequestEntry>, e: RequestEntry)
    ensures Request(es + [e]) == Request(es) + (" " + EncodeEntry(e))
  {
    EncodeAppend(es, e);
    SpacedAppend(EncodeAll(es), EncodeEntry(e));
    Regroup("THROTTLE", Spaced(EncodeAll(es)), " " + EncodeEntry(e));
  }

  lemma RequestSize(es: seq<RequestEntry>, e: RequestEntry)
    ensures |Utf8(Request(es + [e]))| <= |Utf8(Request(es))| + |Utf8(e.key)| + MAX_ENCODED_ENTRY_OVERHEAD
  {
    RequestAppend(es, e);
    Utf8Append(Request(es), " " + EncodeEntry(e));
    Utf8Append(" ", EncodeEntry(e));
    AsciiSize(" ");
    EntrySize(e);
  }

  lemma {:induction false} RequestWithin(es: seq<RequestEntry>)
    ensures |Utf8(Request(es))| + 1 <= Reserved(es)
  {
    if es == [] {
      AsciiSize("THROTTLE");
      assert Request(es) == "THROTTLE";
    } else {
      RequestWithin(es[..|es| - 1]);
      RequestSize(es[..|es| - 1], es[|es| - 1]);
      Halves(es, |es| - 1);
    }
  }

  /** The reserved space is enough for the whole line, so that writing never reallocates. */
  lemma RequestFits(es: seq<RequestEntry>)
    ensures |Utf8(Request(es) + "\n")| <= Reserved(es)
  {
    RequestWithin(es);
    Utf8Append(Request(es), "\n");
    AsciiSize("\n");
  }
}
