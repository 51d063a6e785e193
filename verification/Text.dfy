/** The text primitives both ends of the protocol rest on: splitting into fields and parts,
    and decimal integers. */
module Text {
  import opened Types

  // ------------------------------------------------------------------ fields

  /** White_Space as Unicode defines it. */
  predicate IsSpace(c: char) {
    || ('\U{9}' <= c <= '\U{D}') || c == ' ' || c == '\U{85}' || c == '\U{A0}' || c == '\U{1680}'
    || ('\U{2000}' <= c <= '\U{200A}') || c == '\U{2028}' || c == '\U{2029}' || c == '\U{202F}'
    || c == '\U{205F}' || c == '\U{3000}'
  }

  predicate NoSpace(s: string) {
    forall i :: 0 <= i < |s| ==> !IsSpace(s[i])
  }

  predicate IsWord(s: string) {
    s != "" && NoSpace(s)
  }

  /** The length of the longest prefix without a space. */
  function WordLength(s: string): (n: nat)
    ensures n <= |s| && NoSpace(s[..n])
    ensures n < |s| ==> IsSpace(s[n])
  {
    if s == "" || IsSpace(s[0]) then 0 else 1 + WordLength(s[1..])
  }

  /** The words of s, wherever the spaces between them are. */
  function Fields(s: string): (words: seq<string>)
    ensures forall w :: w in words ==> IsWord(w)
  {
    if s == "" then []
    else if IsSpace(s[0]) then Fields(s[1..])
    else
      var n := WordLength(s);
      [s[..n]] + Fields(s[n..])
  }

  /** Each word with a space before it. */
  function Spaced(words: seq<string>): string {
    if words == [] then "" else (" " + words[0]) + Spaced(words[1..])
  }

  lemma {:induction false} SpacedAppend(words: seq<string>, w: string)
    ensures Spaced(words + [w]) == Spaced(words) + (" " + w)
  {
    if words == [] {
      assert (words + [w])[1..] == [];
    } else {
      SpacedAppend(words[1..], w);
      assert (words + [w])[1..] == words[1..] + [w];
      Regroup(" " + words[0], Spaced(words[1..]), " " + w);
    }
  }

  lemma Regroup(a: string, b: string, c: string)
    ensures a + (b + c) == (a + b) + c
  {
  }

  lemma {:induction false} WordLengthOf(w: string, rest: string)
    requires NoSpace(w) && (rest == "" || IsSpace(rest[0]))
    ensures WordLength(w + rest) == |w|
  {
    if w == "" {
      assert w + rest == rest;
    } else {
      WordLengthOf(w[1..], rest);
      assert (w + rest)[1..] == w[1..] + rest;
    }
  }

  lemma WordFirst(w: string, rest: string)
    requires IsWord(w) && (rest == "" || IsSpace(rest[0]))
    ensures Fields(w + rest) == [w] + Fields(rest)
  {
    WordLengthOf(w, rest);
    assert (w + rest)[..|w|] == w && (w + rest)[|w|..] == rest;
  }

  lemma LeadingSpace(s: string)
    ensures Fields(" " + s) == Fields(s)
  {
    assert (" " + s)[1..] == s;
  }

  /** What is written with one space before each word is read back as the same words. */
  lemma {:induction false} FieldsOfSpaced(words: seq<string>)
    requires forall w :: w in words ==> IsWord(w)
    ensures Fields(Spaced(words)) == words
  {
    if words != [] {
      var w, rest := words[0], Spaced(words[1..]);
      FieldsOfSpaced(words[1..]);
      assert rest == "" || rest[0] == ' ';
      assert Spaced(words) == " " + (w + rest) && words == [w] + words[1..];
      LeadingSpace(w + rest);
      WordFirst(w, rest);
    }
  }

  lemma {:induction false} TrailingSpace(s: string, c: char)
    requires IsSpace(c)
    ensures Fields(s + [c]) == Fields(s)
    decreases |s|
  {
    if s == "" {
      assert s + [c] == [c] && [c][1..] == "";
    } else if IsSpace(s[0]) {
      assert (s + [c])[1..] == s[1..] + [c];
      TrailingSpace(s[1..], c);
    } else {
      var n := WordLength(s);
      assert s + [c] == s[..n] + (s[n..] + [c]);
      assert s == s[..n] + s[n..];
      WordFirst(s[..n], s[n..] + [c]);
      WordFirst(s[..n], s[n..]);
      TrailingSpace(s[n..], c);
    }
  }

  lemma SplitAt(s: string, n: nat)
    requires n <= |s|
    ensures s[..n] + s[n..] == s
  {
  }

  /** A word in front of another makes one word with it. */
  lemma Glued(w: string, head: string, rest: string)
    requires IsWord(w) && IsWord(head) && (rest == "" || IsSpace(rest[0]))
    ensures Fields(w + (head + rest)) == [w + head] + Fields(rest)
  {
    Regroup(w, head, rest);
    WordFirst(w + head, rest);
  }

  lemma WordThen(w: string, u: string, v: string)
    requires IsWord(w) && u != "" && IsSpace(u[0])
    ensures Fields((w + u) + v) == [w] + Fields(u + v)
  {
    Regroup(w, u, v);
    WordFirst(w, u + v);
  }

  lemma SpaceThen(u: string, v: string)
    requires u != "" && IsSpace(u[0])
    ensures Fields(u + v) == Fields(u[1..] + v)
  {
    assert (u + v)[1..] == u[1..] + v;
  }

  /** Text put in front of a line takes no word away. */
  lemma {:induction false} FieldsOfSuffix(u: string, head: string, rest: string)
    requires IsWord(head) && (rest == "" || IsSpace(rest[0]))
    ensures |Fields(u + (head + rest))| >= 1 + |Fields(rest)|
    decreases |u|
  {
    var v := head + rest;
    if u == "" {
      assert u + v == v;
      WordFirst(head, rest);
    } else if IsSpace(u[0]) {
      SpaceThen(u, v);
      FieldsOfSuffix(u[1..], head, rest);
    } else {
      var n := WordLength(u);
      SplitAt(u, n);
      if n < |u| {
        WordThen(u[..n], u[n..], v);
        FieldsOfSuffix(u[n..], head, rest);
      } else {
        assert u[..n] == u;
        Glued(u, head, rest);
      }
    }
  }

  function Concat(words: seq<string>): string {
    if words == [] then "" else words[0] + Concat(words[1..])
  }

  function Letters(s: string): string {
    if s == "" then "" else (if IsSpace(s[0]) then "" else [s[0]]) + Letters(s[1..])
  }

  lemma {:induction false} LettersOfWord(w: string, rest: string)
    requires NoSpace(w)
    ensures Letters(w + rest) == w + Letters(rest)
  {
    if w == "" {
      assert w + rest == rest && w + Letters(rest) == Letters(rest);
    } else {
      LettersOfWord(w[1..], rest);
      assert (w + rest)[1..] == w[1..] + rest;
      Regroup([w[0]], w[1..], Letters(rest));
      assert [w[0]] + w[1..] == w;
    }
  }

  /** Splitting into words drops the spaces and nothing else. */
  lemma {:induction false} FieldsKeepLetters(s: string)
    ensures Concat(Fields(s)) == Letters(s)
    decreases |s|
  {
    if s != "" && IsSpace(s[0]) {
      FieldsKeepLetters(s[1..]);
      assert "" + Letters(s[1..]) == Letters(s[1..]);
    } else if s != "" {
      var n := WordLength(s);
      assert s[..n] + s[n..] == s;
      LettersOfWord(s[..n], s[n..]);
      FieldsKeepLetters(s[n..]);
    }
  }

  /** strings.TrimRight(s, "\r\n"). */
  function TrimRight(s: string): string {
    if s != "" && (s[|s| - 1] == '\r' || s[|s| - 1] == '\n') then TrimRight(s[..|s| - 1]) else s
  }

  lemma {:induction false} TrimKeepsFields(s: string)
    ensures Fields(TrimRight(s)) == Fields(s)
  {
    if s != "" && (s[|s| - 1] == '\r' || s[|s| - 1] == '\n') {
      TrimKeepsFields(s[..|s| - 1]);
      TrailingSpace(s[..|s| - 1], s[|s| - 1]);
      assert s[..|s| - 1] + [s[|s| - 1]] == s;
    }
  }

  // ------------------------------------------------------------------- parts

  predicate NoBar(s: string) {
    '|' !in s
  }

  /** The pieces between the '|' characters. */
  function Split(s: string): (parts: seq<string>)
    ensures parts != []
  {
    if s == "" then [""]
    else
      if s[0] == '|' then [""] + Split(s[1..]) else Push(s[0], Split(s[1..]))
  }

  /** One more character at the front of the first part. */
  function Push(c: char, parts: seq<string>): seq<string>
    requires parts != []
  {
    [[c] + parts[0]] + parts[1..]
  }

  lemma PushAppend(c: char, parts: seq<string>, more: seq<string>)
    requires parts != []
    ensures Push(c, parts + more) == Push(c, parts) + more
  {
    assert (parts + more)[1..] == parts[1..] + more;
  }

  function Joined(parts: seq<string>): string
    requires parts != []
  {
    var last := |parts| - 1;
    if last == 0 then parts[0] else Joined(parts[..last]) + ("|" + parts[last])
  }

  lemma JoinedAppend(parts: seq<string>, p: string)
    requires parts != []
    ensures Joined(parts + [p]) == Joined(parts) + ("|" + p)
  {
    assert (parts + [p])[..|parts|] == parts;
  }

  lemma {:induction false} JoinedIsWord(parts: seq<string>)
    requires parts != [] && parts[0] != "" && forall p :: p in parts ==> NoSpace(p)
    ensures IsWord(Joined(parts))
  {
    if |parts| > 1 {
      JoinedIsWord(parts[..|parts| - 1]);
      assert parts[|parts| - 1] in parts;
    }
  }

  lemma {:induction false} SplitAppend(s: string, t: string)
    ensures Split(s + ("|" + t)) == Split(s) + Split(t)
  {
    if s == "" {
      assert s + ("|" + t) == "|" + t && ("|" + t)[1..] == t;
    } else {
      SplitAppend(s[1..], t);
      assert (s + ("|" + t))[1..] == s[1..] + ("|" + t);
      PushAppend(s[0], Split(s[1..]), Split(t));
      assert [""] + (Split(s[1..]) + Split(t)) == ([""] + Split(s[1..])) + Split(t);
    }
  }

  /** Splitting loses nothing: joined with bars, the parts are s again. */
  lemma {:induction false} JoinedOfSplit(s: string)
    ensures Joined(Split(s)) == s
  {
    if s != "" {
      var rest := Split(s[1..]);
      JoinedOfSplit(s[1..]);
      if s[0] == '|' {
        JoinedFront("", rest);
      } else {
        JoinedPush(s[0], rest);
      }
    }
  }

  predicate IsPart(p: string, spaceless: bool) {
    NoBar(p) && (spaceless ==> NoSpace(p))
  }

  /** No part has a bar, nor a space unless s has one. */
  lemma {:induction false} PartsOfSplit(s: string, i: nat)
    requires i < |Split(s)|
    ensures IsPart(Split(s)[i], NoSpace(s))
  {
    if s != "" {
      var rest := Split(s[1..]);
      if s[0] != '|' {
        PartsOfSplit(s[1..], i);
      } else if i > 0 {
        PartsOfSplit(s[1..], i - 1);
      }
    }
  }

  lemma {:induction false} JoinedFront(p: string, parts: seq<string>)
    requires parts != []
    ensures Joined([p] + parts) == p + ("|" + Joined(parts))
  {
    var last := |parts| - 1;
    assert ([p] + parts)[..last + 1] == [p] + parts[..last];
    if last > 0 {
      JoinedFront(p, parts[..last]);
      Regroup(p + "|", Joined(parts[..last]), "|" + parts[last]);
      Regroup(p, "|", Joined(parts[..last]));
      Regroup(p, "|", Joined(parts));
    }
  }

  lemma PushFront(c: char, parts: seq<string>)
    requires |parts| > 1
    ensures var last := |parts| - 1;
            && |Push(c, parts)| == |parts| && Push(c, parts)[last] == parts[last]
            && Push(c, parts)[..last] == Push(c, parts[..last])
  {
  }

  lemma {:induction false} JoinedPush(c: char, parts: seq<string>)
    requires parts != []
    ensures Joined(Push(c, parts)) == [c] + Joined(parts)
  {
    var last := |parts| - 1;
    if last > 0 {
      PushFront(c, parts);
      JoinedPush(c, parts[..last]);
      Regroup([c], Joined(parts[..last]), "|" + parts[last]);
    }
  }

  lemma {:induction false} SplitPart(p: string)
    requires NoBar(p)
    ensures Split(p) == [p]
  {
    if p != "" {
      SplitPart(p[1..]);
      assert [p[0]] + p[1..] == p;
    }
  }

  lemma {:induction false} SplitOfJoined(parts: seq<string>)
    requires parts != [] && forall p :: p in parts ==> NoBar(p)
    ensures Split(Joined(parts)) == parts
  {
    var last := |parts| - 1;
    SplitPart(parts[last]);
    if last > 0 {
      SplitOfJoined(parts[..last]);
      SplitAppend(Joined(parts[..last]), parts[last]);
    }
  }

  // ----------------------------------------------------------------- numbers

  predicate IsDigit(c: char) {
    '0' <= c <= '9'
  }

  predicate AllDigits(s: string) {
    forall i :: 0 <= i < |s| ==> IsDigit(s[i])
  }

  function DigitChar(d: nat): (c: char)
    requires d < 10
    ensures IsDigit(c) && c as int == '0' as int + d
  {
    ('0' as int + d) as char
  }

  function Digits(n: nat): (s: string)
    ensures s != "" && AllDigits(s)
  {
    (if n < 10 then "" else Digits(n / 10)) + [DigitChar(n % 10)]
  }

  function Value(s: string): nat
    requires AllDigits(s)
  {
    if s == "" then 0 else 10 * Value(s[..|s| - 1]) + (s[|s| - 1] as int - '0' as int)
  }

  lemma {:induction false} ValueOfDigits(n: nat)
    ensures Value(Digits(n)) == n
  {
    var s := Digits(n);
    if n < 10 {
      assert s[..0] == "";
    } else {
      ValueOfDigits(n / 10);
      assert s[..|s| - 1] == Digits(n / 10);
    }
  }

  function Pow10(k: nat): nat {
    if k == 0 then 1 else 10 * Pow10(k - 1)
  }

  lemma {:induction false} DigitsLength(n: nat, k: nat)
    requires k > 0 && n < Pow10(k)
    ensures |Digits(n)| <= k
  {
    if n >= 10 {
      DigitsLength(n / 10, k - 1);
    }
  }

  function Magnitude(v: int): nat {
    if v < 0 then -v else v
  }

  /** strconv.AppendInt in base 10. */
  function FormatInt(v: int64): string {
    if v < 0 then "-" + Digits(Magnitude(v)) else Digits(Magnitude(v))
  }

  /** strconv.ParseInt in base 10 with 64 bits: an optional sign, then digits only. */
  function ParseInt(s: string): Option<int64> {
    if s == "" then None
    else
      var body := if s[0] == '-' || s[0] == '+' then s[1..] else s;
      if body == "" || !AllDigits(body) then None
      else
        var v: int := if s[0] == '-' then 0 - Value(body) else Value(body);
        if -INT64_MAX - 1 <= v <= INT64_MAX then Some(v) else None
  }

  /** Every int64 survives printing and parsing. */
  lemma IntRoundTrip(v: int64)
    ensures ParseInt(FormatInt(v)) == Some(v)
  {
    var n := Magnitude(v);
    ValueOfDigits(n);
    if v < 0 {
      assert FormatInt(v)[1..] == Digits(n);
    } else {
      assert IsDigit(FormatInt(v)[0]);
    }
  }

  /** It fits the printing buffer of 20 bytes. */
  lemma IntFitsBuffer(v: int64)
    ensures |FormatInt(v)| <= 20
  {
    assert Pow10(7) == 10_000_000;
    assert Pow10(13) == 10_000_000_000_000;
    assert Pow10(19) == 10_000_000_000_000_000_000;
    DigitsLength(Magnitude(v), 19);
  }

  /** It prints as part of a word, whatever surrounds it. */
  lemma IntIsPart(v: int64)
    ensures IsWord(FormatInt(v)) && NoBar(FormatInt(v))
  {
  }
}
