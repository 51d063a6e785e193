/** The text of DHP/1, character by character, as its reference writes it (README.md, "DeadHorse
    Protocol reference"): what each end prints and what each end accepts. */
module Grammar {
  import opened Types
  import opened Text
  import opened Codec

  // ------------------------------------------------------------- characters

  /** The 25 characters with the Unicode property White_Space. */
  lemma SpaceCharacters(c: char)
    ensures IsSpace(c) <==>
              c in "\t\n\U{B}\U{C}\r \U{85}\U{A0}\U{1680}"
                   + "\U{2000}\U{2001}\U{2002}\U{2003}\U{2004}\U{2005}\U{2006}\U{2007}\U{2008}\U{2009}\U{200A}"
                   + "\U{2028}\U{2029}\U{202F}\U{205F}\U{3000}"
  {
    assert c == c as int as char;
  }

  /** A key is valid exactly if it is one word of a line and one part of an entry. */
  lemma ValidKeyIsOneWord(key: string)
    ensures ValidKey(key) <==> Fields(key) == [key] && Split(key) == [key]
  {
    if ValidKey(key) {
      WordFirst(key, "");
      assert key + "" == key;
      SplitPart(key);
    } else if Fields(key) == [key] && Split(key) == [key] {
      assert key in Fields(key);
      PartsOfSplit(key, 0);
      assert false;
    }
  }

  // --------------------------------------------------------------- decimals

  /** Integers are written in decimal, most significant digit first, with no leading zero. */
  lemma DecimalText(n: int64, d: nat)
    requires n >= 0 && d < 10
    ensures FormatInt(d) == ["0123456789"[d]]
    ensures 0 < n && 10 * n + d <= INT64_MAX ==> FormatInt(10 * n + d) == FormatInt(n) + ["0123456789"[d]]
    ensures n > 0 ==> FormatInt(-n) == "-" + FormatInt(n)
  {
    DigitText(d);
    if n > 0 {
      TenTimes(n, d);
    }
  }

  lemma DigitText(d: nat)
    requires d < 10
    ensures Digits(d) == ["0123456789"[d]]
  {
    assert DigitChar(d) == "0123456789"[d];
  }

  lemma TenTimes(n: nat, d: nat)
    requires n > 0 && d < 10
    ensures Digits(10 * n + d) == Digits(n) + ["0123456789"[d]]
  {
    assert (10 * n + d) / 10 == n && (10 * n + d) % 10 == d;
    DigitText(d);
    assert "" + [DigitChar(d)] == [DigitChar(d)];
  }

  function Zeros(k: nat): (s: string)
    ensures AllDigits(s) && |s| == k
  {
    if k == 0 then "" else Zeros(k - 1) + "0"
  }

  lemma OneDigit(c: char, d: nat)
    requires d < 10 && c as int == '0' as int + d
    ensures "0123456789"[d] == c && Digits(d) == [c]
  {
    assert DigitChar(d) == c;
    DigitText(d);
  }

  /** A string of digits is the number it stands for with zeros in front. */
  lemma {:induction false} DigitsAreNumber(s: string) returns (zeros: nat)
    requires s != "" && AllDigits(s)
    ensures s == Zeros(zeros) + Digits(Value(s))
  {
    var front, c := s[..|s| - 1], s[|s| - 1];
    OneDigit(c, c as int - '0' as int);
    assert s == front + [c];
    zeros := 0;
    if front != "" {
      zeros := DigitsAreNumber(front);
      zeros := NextDigit(front, c as int - '0' as int, Value(front), zeros);
    }
  }

  lemma NextDigit(front: string, d: nat, v: nat, k: nat) returns (zeros: nat)
    requires d < 10 && front == Zeros(k) + Digits(v)
    ensures front + ["0123456789"[d]] == Zeros(zeros) + Digits(10 * v + d)
  {
    DigitText(d);
    if v > 0 {
      zeros := k;
      TenTimes(v, d);
    } else {
      zeros := k + 1;
      DigitText(0);
    }
  }

  lemma LeadingZeros(k: nat, n: nat)
    ensures AllDigits(Zeros(k) + Digits(n)) && Value(Zeros(k) + Digits(n)) == n
  {
    ValueOfDigits(n);
    ZerosFirst(k, Digits(n));
  }

  lemma {:induction false} ZerosFirst(k: nat, s: string)
    requires AllDigits(s)
    ensures AllDigits(Zeros(k) + s) && Value(Zeros(k) + s) == Value(s)
    decreases k + |s|
  {
    var t := Zeros(k) + s;
    if s != "" {
      ZerosFirst(k, s[..|s| - 1]);
      assert t[..|t| - 1] == Zeros(k) + s[..|s| - 1];
    } else if k > 0 {
      ZerosFirst(k - 1, "");
      assert t[..|t| - 1] == Zeros(k - 1) + "";
    }
  }

  lemma Unsigned(body: string)
    requires body != "" && AllDigits(body)
    ensures ParseInt(body) == if Value(body) <= INT64_MAX then Some(Value(body)) else None
  {
    assert IsDigit(body[0]);
  }

  lemma Signed(c: char, body: string)
    requires body != "" && AllDigits(body) && (c == '+' || c == '-')
    ensures ParseInt([c] + body)
            == var v: int := if c == '-' then 0 - Value(body) else Value(body);
               if -INT64_MAX - 1 <= v <= INT64_MAX then Some(v) else None
  {
    assert ([c] + body)[1..] == body;
  }

  lemma SignedOrNot(sign: string, body: string, n: nat)
    requires sign in ["", "+", "-"] && body != "" && AllDigits(body) && Value(body) == n
    ensures ParseInt(sign + body)
            == var v: int := if sign == "-" then 0 - n else n;
               if -INT64_MAX - 1 <= v <= INT64_MAX then Some(v) else None
  {
    if sign == "" {
      assert sign + body == body;
      Unsigned(body);
    } else {
      assert [sign[0]] == sign;
      Signed(sign[0], body);
    }
  }

  /** An integer is read from a sign or none, any zeros, and its decimal digits, if it fits 64
      bits; from nothing else. */
  lemma IntIsParsed(sign: string, k: nat, n: nat)
    requires sign in ["", "+", "-"]
    ensures ParseInt(sign + (Zeros(k) + Digits(n)))
            == var v: int := if sign == "-" then 0 - n else n;
               if -INT64_MAX - 1 <= v <= INT64_MAX then Some(v) else None
  {
    LeadingZeros(k, n);
    SignedOrNot(sign, Zeros(k) + Digits(n), n);
  }

  lemma ParsedIsInt(s: string)
    requires ParseInt(s).Some?
    ensures exists sign: string, k: nat, n: nat ::
              sign in ["", "+", "-"] && s == sign + (Zeros(k) + Digits(n))
  {
    var signed := s[0] == '-' || s[0] == '+';
    var body := if signed then s[1..] else s;
    var sign := if signed then [s[0]] else "";
    var k := DigitsAreNumber(body);
    assert sign in ["", "+", "-"] && s == sign + (Zeros(k) + Digits(Value(body)));
  }

  // ---------------------------------------------------------------- entries

  lemma BarSplit(s: string, t: string)
    ensures Split(s + "|" + t) == Split(s) + Split(t)
  {
    SplitAppend(s, t);
    Regroup(s, "|", t);
  }

  lemma FiveSplit(a: string, b: string, c: string, d: string, e: string)
    requires NoBar(a) && NoBar(b) && NoBar(c) && NoBar(d) && NoBar(e)
    ensures Split(a + "|" + b + "|" + c + "|" + d + "|" + e) == [a, b, c, d, e]
  {
    FourJoined(a, b, c, d);
    BarJoined([a, b, c, d], e);
    assert [a, b, c, d] + [e] == [a, b, c, d, e];
    SplitOfJoined([a, b, c, d, e]);
  }

  lemma ParsedNumber(v: int64)
    ensures NoBar(FormatInt(v)) && ParseInt(FormatInt(v)) == Some(v)
  {
    IntIsPart(v);
    IntRoundTrip(v);
  }

  lemma ParsedOf(front: string, parts: seq<string>, c: int64, u: int64, p: int64, n: int64, mode: string)
    requires Split(front) == parts && |parts| == 5 && parts[0] != ""
    requires ParseInt(parts[1]) == Some(c) && ParseInt(parts[2]) == Some(u)
    requires ParseInt(parts[3]) == Some(p) && ParseInt(parts[4]) == Some(n)
    ensures ParseEntry(front + "|" + mode)
            == if c >= 0 && u >= 0 && p >= 0 && n >= 0 && (mode == "R" || mode == "P")
               then Some(RequestEntry(parts[0], Limit(c, Rate(u, p)), n, mode == "P")) else None
  {
    BarSplit(front, mode);
    if '|' in mode {
      OnePart(mode);
    } else {
      SplitPart(mode);
    }
  }

  lemma {:induction false} OnePart(s: string)
    ensures '|' in s <==> |Split(s)| > 1
  {
    if s != "" {
      OnePart(s[1..]);
    }
  }

  /** An entry, as the server reads it: accepted exactly if no number is negative and the last
      part is R or P, which says whether it is a peek. */
  lemma EntryIsParsed(key: string, c: int64, u: int64, p: int64, n: int64, mode: string)
    requires key != "" && '|' !in key
    ensures ParseEntry(key + "|" + FormatInt(c) + "|" + FormatInt(u) + "|" + FormatInt(p) + "|" + FormatInt(n)
                       + "|" + mode)
            == if c >= 0 && u >= 0 && p >= 0 && n >= 0 && (mode == "R" || mode == "P")
               then Some(RequestEntry(key, Limit(c, Rate(u, p)), n, mode == "P")) else None
  {
    ParsedNumber(c);
    ParsedNumber(u);
    ParsedNumber(p);
    ParsedNumber(n);
    TextParsed(key, FormatInt(c), FormatInt(u), FormatInt(p), FormatInt(n), mode, c, u, p, n);
  }

  lemma TextParsed(key: string, a: string, b: string, d: string, e: string, mode: string,
                   c: int64, u: int64, p: int64, n: int64)
    requires key != "" && NoBar(key) && NoBar(a) && NoBar(b) && NoBar(d) && NoBar(e)
    requires ParseInt(a) == Some(c) && ParseInt(b) == Some(u) && ParseInt(d) == Some(p) && ParseInt(e) == Some(n)
    ensures ParseEntry(key + "|" + a + "|" + b + "|" + d + "|" + e + "|" + mode)
            == if c >= 0 && u >= 0 && p >= 0 && n >= 0 && (mode == "R" || mode == "P")
               then Some(RequestEntry(key, Limit(c, Rate(u, p)), n, mode == "P")) else None
  {
    FiveSplit(key, a, b, d, e);
    ParsedOf(key + "|" + a + "|" + b + "|" + d + "|" + e, [key, a, b, d, e], c, u, p, n, mode);
  }

  /** A request line is the command and then, for each entry, a space and the entry. */
  lemma RequestIsPrinted(es: seq<RequestEntry>, e: RequestEntry)
    ensures Request([]) == "THROTTLE"
    ensures Request(es + [e]) == Request(es) + " " + EncodeEntry(e)
  {
    assert EncodeAll([]) == [];
    EncodeAppend(es, e);
    SpacedAppend(EncodeAll(es), EncodeEntry(e));
    Regroup("THROTTLE", Spaced(EncodeAll(es)), " " + EncodeEntry(e));
    Regroup(Request(es), " ", EncodeEntry(e));
  }

  // ---------------------------------------------------------------- results

  /** A result, as the server writes it: key|throttled|remaining|retry_after_ns, or ERR. */
  lemma ResultIsPrinted(r: ResponseEntry)
    ensures FormatResult(r)
            == if r.err.Some? then "ERR"
               else r.key + "|" + (if r.throttled then "1" else "0") + "|" + FormatInt(r.remaining)
                    + "|" + FormatInt(r.retryAfter)
  {
    FourJoined(r.key, if r.throttled then "1" else "0", FormatInt(r.remaining), FormatInt(r.retryAfter));
  }

  /** A result, as the client reads it in the place of entry e: its key must be the entry's and
      its headroom not negative; it is throttled exactly if its second part is 1. */
  lemma ResultIsParsed(key: string, throttled: string, remaining: int64, retryAfter: int64, e: RequestEntry)
    requires '|' !in key && '|' !in throttled
    ensures DecodeToken(key + "|" + throttled + "|" + FormatInt(remaining) + "|" + FormatInt(retryAfter), e)
            == if key == e.key && remaining >= 0
               then Some(ResponseEntry(e.key, throttled == "1", remaining, retryAfter, None)) else None
    ensures DecodeToken("ERR", e) == Some(ResponseEntry(e.key, true, 0, 0, Some(EntryRejected)))
  {
    ParsedNumber(remaining);
    ParsedNumber(retryAfter);
    FourSplit(key, throttled, FormatInt(remaining), FormatInt(retryAfter));
    ReadAs(key + "|" + throttled + "|" + FormatInt(remaining) + "|" + FormatInt(retryAfter),
           [key, throttled, FormatInt(remaining), FormatInt(retryAfter)], remaining, retryAfter, e);
  }

  lemma FourSplit(a: string, b: string, c: string, d: string)
    requires NoBar(a) && NoBar(b) && NoBar(c) && NoBar(d)
    ensures Split(a + "|" + b + "|" + c + "|" + d) == [a, b, c, d]
  {
    FourJoined(a, b, c, d);
    SplitOfJoined([a, b, c, d]);
  }

  lemma ReadAs(tok: string, parts: seq<string>, remaining: int64, retryAfter: int64, e: RequestEntry)
    requires Split(tok) == parts && |parts| == 4
    requires ParseInt(parts[2]) == Some(remaining) && ParseInt(parts[3]) == Some(retryAfter)
    ensures DecodeToken(tok, e)
            == if parts[0] == e.key && remaining >= 0
               then Some(ResponseEntry(e.key, parts[1] == "1", remaining, retryAfter, None)) else None
  {
    SplitPart("ERR");
  }

  /** A response line is the word RESULT and then a space and a result for each. */
  lemma ResponseIsPrinted(results: seq<string>, r: string)
    ensures Response([]) == "RESULT"
    ensures Response(results + [r]) == Response(results) + " " + r
  {
    SpacedAppend(results, r);
    Regroup("RESULT", Spaced(results), " " + r);
    Regroup(Response(results), " ", r);
  }

  /** A response line is accepted exactly if its first word is RESULT and it has one more word
      for each entry, each of which reads as a result for the entry at its place. */
  lemma ResponseIsParsed(line: string, es: seq<RequestEntry>)
    ensures Decoded(line, es).Some? <==>
              && |Fields(line)| == |es| + 1 && Fields(line)[0] == "RESULT"
              && forall i :: 0 <= i < |es| ==> DecodeToken(Fields(line)[i + 1], es[i]).Some?
    ensures Decoded(line, es).Some? ==>
              && |Decoded(line, es).value| == |es|
              && forall i :: 0 <= i < |es| ==>
                   DecodeToken(Fields(line)[i + 1], es[i]) == Some(Decoded(line, es).value[i])
  {
    TrimKeepsFields(line);
    if |Fields(line)| == |es| + 1 {
      DecodedMatches(Fields(line)[1..], es);
    }
  }
}
