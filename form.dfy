/** Decoding of an `application/x-www-form-urlencoded` request body as the
    server does it: one left-to-right scan that rewrites the body in place and
    collects key/value pairs. The scan is faithful to the code, including its
    treatment of `%XY`, which it rewrites as the two-digit DECIMAL rendering of
    the escaped value instead of decoding it to one character. */
module UrlencodedForm {
  import opened Text

  predicate IsHexDigit(c: char)
  {
    '0' <= c <= '9' || 'A' <= c <= 'F' || 'a' <= c <= 'f'
  }

  /** The value of a byte read through the code's `char`, which is signed:
      the bytes 0x80 to 0xFF are negative. A body is a byte string, one
      `char` per byte. */
  function SignedChar(ch: char): (v: int)
    ensures ch as int < 128 ==> v == ch as int
    ensures 128 <= ch as int < 256 ==> v == ch as int - 256
  {
    if 128 <= ch as int < 256 then ch as int - 256 else ch as int
  }

  /** `ConverHex`: the value of a hexadecimal digit of either case; any other
      byte yields its signed distance from '0', as in the code. */
  function ConvertHex(ch: char): (v: int)
    ensures IsHexDigit(ch) ==> 0 <= v < 16
    ensures !IsHexDigit(ch) ==> v == SignedChar(ch) - '0' as int
  {
    if 'A' <= ch <= 'F' then ch as int - 'A' as int + 10
    else if 'a' <= ch <= 'f' then ch as int - 'a' as int + 10
    else SignedChar(ch) - '0' as int
  }

  function UpperHexDigit(d: nat): (c: char)
    requires d < 16
    ensures IsHexDigit(c)
  {
    if d < 10 then DigitChar(d) else ('A' as int + d - 10) as char
  }

  function LowerHexDigit(d: nat): (c: char)
    requires d < 16
    ensures IsHexDigit(c)
  {
    if d < 10 then DigitChar(d) else ('a' as int + d - 10) as char
  }

  /** `ConvertHex` inverts both spellings of every hexadecimal digit. */
  lemma ConvertHexInverse(d: nat)
    requires d < 16
    ensures ConvertHex(UpperHexDigit(d)) == d && ConvertHex(LowerHexDigit(d)) == d
  {
  }

  /** C++ `/` on `int`: the quotient truncated toward zero. */
  function TruncDiv(a: int, b: int): (q: int)
    requires b > 0
    ensures a >= 0 ==> q == a / b
    ensures a < 0 ==> q == -((-a) / b)
  {
    if a >= 0 then a / b else -((-a) / b)
  }

  /** C++ `%` on `int`: the remainder that goes with `TruncDiv`, with the sign of `a`. */
  function TruncRem(a: int, b: int): (r: int)
    requires b > 0
    ensures a == TruncDiv(a, b) * b + r
    ensures a >= 0 ==> 0 <= r < b
    ensures a < 0 ==> -b < r <= 0
  {
    a - TruncDiv(a, b) * b
  }

  /** Storing an `int` into a `char` keeps its low eight bits. */
  function ToByteChar(v: int): (c: char)
    ensures c as int == v % 256
  {
    (v % 256) as char
  }

  /** The value `num = ConverHex(x) * 16 + ConverHex(y)` of an escape `%xy`. */
  function EscapeValue(x: char, y: char): int
  {
    ConvertHex(x) * 16 + ConvertHex(y)
  }

  /** What the scan writes over `x` and `y`: `num / 10 + '0'` and `num % 10 + '0'`. */
  function RewrittenEscape(x: char, y: char): (string)
  {
    var num := EscapeValue(x, y);
    [ToByteChar(TruncDiv(num, 10) + '0' as int), ToByteChar(TruncRem(num, 10) + '0' as int)]
  }

  /** For a genuine escape the units digit is right, and the first character is
      a decimal digit exactly when the value is below 100 (`%FF` becomes `%I5`). */
  lemma EscapeRewriteDigits(x: char, y: char)
    requires IsHexDigit(x) && IsHexDigit(y)
    ensures var num := EscapeValue(x, y); var r := RewrittenEscape(x, y);
      0 <= num < 256 && r[1] == DigitChar(num % 10) &&
      (IsDigit(r[0]) <==> num < 100) && (num < 100 ==> r[0] == DigitChar(num / 10))
  {
    var num := EscapeValue(x, y);
    assert 0 <= num < 256;
    DecimalDigits(num);
  }

  /** The two characters written for a value in `[0, 256)`. */
  lemma DecimalDigits(num: int)
    requires 0 <= num < 256
    ensures var c0, c1 := ToByteChar(TruncDiv(num, 10) + '0' as int), ToByteChar(TruncRem(num, 10) + '0' as int);
      c1 == DigitChar(num % 10) && (IsDigit(c0) <==> num < 100) && (num < 100 ==> c0 == DigitChar(num / 10))
  {
    var q, r := num / 10, num % 10;
    assert num == 10 * q + r && 0 <= r < 10;
    assert TruncDiv(num, 10) == q <= 25;
    assert TruncRem(num, 10) == r;
    assert q < 10 <==> num < 100;
  }

  /** Scanning `t` from its start, every '%' the scan stops at has two
      characters after it. The code reads `m_body[i + 1]` and `m_body[i + 2]`
      without a bounds check, so this is what it demands of the body. */
  predicate EscapesComplete(t: string)
    decreases |t|
  {
    |t| == 0 ||
    if t[0] == '%' then |t| >= 3 && EscapesComplete(t[3..]) else EscapesComplete(t[1..])
  }

  /** The result of the scan: the rewritten body and the collected pairs. */
  datatype Decoded = Decoded(body: string, fields: map<string, string>)

  /** The loop of `ParseFromUrlencoded` from position `i`, with `j` the start
      of the pending key or value and `key` the last key seen; `s` is the body
      as rewritten so far. At the end the pending value is stored under `key`
      unless that key is already present or the value is empty; '=' ends a key;
      '&' ends a value and stores it (overwriting); every other character is a
      `ScanStep`. */
  function Scan(s: string, i: nat, j: nat, key: string, post: map<string, string>): (d: Decoded)
    requires j <= i <= |s| && EscapesComplete(s[i..])
    ensures |d.body| == |s|
    decreases |s| - i
  {
    if i == |s| then
      Decoded(s, if key !in post && j < i then post[key := s[j..i]] else post)
    else if s[i] == '=' then
      assert s[i..][1..] == s[i + 1..];
      Scan(s, i + 1, i + 1, s[j..i], post)
    else if s[i] == '&' then
      assert s[i..][1..] == s[i + 1..];
      Scan(s, i + 1, i + 1, key, post[key := s[j..i]])
    else
      var m := HeadLength(s[i..]);
      assert s[i..][m..] == s[i + m..];
      Scan(ScanStep(s, i), i + m, j, key, post)
  }

  /** The body after one step of the scan over a character other than '=' and
      '&': '+' becomes a space, the two characters after '%' are overwritten by
      `RewrittenEscape`, anything else is left as it is. Only the characters the
      step passes over change. */
  function ScanStep(s: string, i: nat): (s1: string)
    requires i < |s| && EscapesComplete(s[i..])
    ensures |s1| == |s| && s1[i + HeadLength(s[i..])..] == s[i + HeadLength(s[i..])..]
  {
    if s[i] == '%' then
      var r := RewrittenEscape(s[i + 1], s[i + 2]);
      s[i + 2 := r[1]][i + 1 := r[0]]
    else if s[i] == '+' then s[i := ' ']
    else s
  }

  /** The scan's pass over an '=': the pending text becomes the key. */
  lemma ScanAtKeyEnd(s: string, i: nat, j: nat, key: string, post: map<string, string>)
    requires j <= i < |s| && EscapesComplete(s[i..]) && s[i] == '='
    ensures EscapesComplete(s[i + 1..])
    ensures Scan(s, i, j, key, post) == Scan(s, i + 1, i + 1, s[j..i], post)
  {
    EscapesStep(s, i);
  }

  /** The scan's pass over an '&': the pending text is stored under the key. */
  lemma ScanAtPairEnd(s: string, i: nat, j: nat, key: string, post: map<string, string>)
    requires j <= i < |s| && EscapesComplete(s[i..]) && s[i] == '&'
    ensures EscapesComplete(s[i + 1..])
    ensures Scan(s, i, j, key, post) == Scan(s, i + 1, i + 1, key, post[key := s[j..i]])
  {
    EscapesStep(s, i);
  }

  /** The scan's pass over any other character: a `ScanStep`. */
  lemma ScanAtOther(s: string, i: nat, j: nat, key: string, post: map<string, string>)
    requires j <= i < |s| && EscapesComplete(s[i..]) && s[i] != '=' && s[i] != '&'
    ensures HeadLength(s[i..]) == if s[i] == '%' then 3 else 1
    ensures EscapesComplete(ScanStep(s, i)[i + HeadLength(s[i..])..])
    ensures Scan(s, i, j, key, post) == Scan(ScanStep(s, i), i + HeadLength(s[i..]), j, key, post)
  {
    EscapesStep(s, i);
  }

  /** The scan's pass over a '+', which it overwrites with a space. */
  lemma ScanAtPlus(s: string, i: nat, j: nat, key: string, post: map<string, string>)
    requires j <= i < |s| && EscapesComplete(s[i..]) && s[i] == '+'
    ensures EscapesComplete(s[i := ' '][i + 1..])
    ensures Scan(s, i, j, key, post) == Scan(s[i := ' '], i + 1, j, key, post)
  {
    ScanAtOther(s, i, j, key, post);
  }

  /** The scan's pass over `%xy`, which it overwrites with the two digits of
      `RewrittenEscape(x, y)` and steps over, stated with the code's own
      arithmetic. */
  lemma ScanAtEscape(s: string, i: nat, j: nat, key: string, post: map<string, string>, num: int)
    requires j <= i < |s| && EscapesComplete(s[i..]) && s[i] == '%'
    requires i + 2 < |s| ==> num == ConvertHex(s[i + 1]) * 16 + ConvertHex(s[i + 2])
    ensures i + 2 < |s|
    ensures EscapesComplete(s[i + 2 := ToByteChar(TruncRem(num, 10) + '0' as int)][i + 1 := ToByteChar(TruncDiv(num, 10) + '0' as int)][i + 3..])
    ensures Scan(s, i, j, key, post) ==
      Scan(s[i + 2 := ToByteChar(TruncRem(num, 10) + '0' as int)][i + 1 := ToByteChar(TruncDiv(num, 10) + '0' as int)], i + 3, j, key, post)
  {
    ScanAtOther(s, i, j, key, post);
  }

  /** The scan's pass over a character it keeps. */
  lemma ScanAtKept(s: string, i: nat, j: nat, key: string, post: map<string, string>)
    requires j <= i < |s| && EscapesComplete(s[i..])
    requires s[i] != '=' && s[i] != '&' && s[i] != '+' && s[i] != '%'
    ensures EscapesComplete(s[i + 1..])
    ensures Scan(s, i, j, key, post) == Scan(s, i + 1, j, key, post)
  {
    ScanAtOther(s, i, j, key, post);
  }

  /** `ParseFromUrlencoded` as a value: an empty body adds nothing; otherwise
      the scan runs from the start with an empty key. */
  function Decode(body: string, post: map<string, string>): (d: Decoded)
    requires EscapesComplete(body)
    ensures |d.body| == |body|
  {
    if |body| == 0 then Decoded(body, post) else Scan(body, 0, 0, "", post)
  }

  // ---------------------------------------------------------------------------
  // An independent description of the rewriting, and of well-formed forms.

  /** How many characters of `t` the scan steps over at once: three for a
      complete escape, one otherwise. */
  function HeadLength(t: string): (m: nat)
    requires |t| > 0
    ensures 1 <= m <= |t|
  {
    if t[0] == '%' && |t| >= 3 then 3 else 1
  }

  /** What the scan leaves in place of those characters. */
  function Head(t: string): (h: string)
    requires |t| > 0
    ensures |h| == HeadLength(t)
  {
    if t[0] == '%' && |t| >= 3 then ['%'] + RewrittenEscape(t[1], t[2])
    else if t[0] == '+' then [' ']
    else [t[0]]
  }

  /** The text the scan leaves behind, read left to right: '+' becomes a space
      and `%xy` becomes '%' followed by `RewrittenEscape(x, y)`. */
  function Rewrite(t: string): (r: string)
    ensures |r| == |t|
    decreases |t|
  {
    if |t| == 0 then []
    else if t[0] == '%' && |t| >= 3 then ['%'] + RewrittenEscape(t[1], t[2]) + Rewrite(t[3..])
    else if t[0] == '+' then [' '] + Rewrite(t[1..])
    else [t[0]] + Rewrite(t[1..])
  }

  /** `Rewrite` handles one step at a time. */
  lemma RewriteHead(t: string)
    requires |t| > 0
    ensures Rewrite(t) == Head(t) + Rewrite(t[HeadLength(t)..])
  {
    if t[0] == '%' && |t| >= 3 {
      assert Rewrite(t) == ['%'] + RewrittenEscape(t[1], t[2]) + Rewrite(t[3..]);
    }
  }

  /** The scan leaves the part before `i` alone and rewrites the rest exactly as
      `Rewrite` says. */
  lemma {:induction false} ScanRewrites(s: string, i: nat, j: nat, key: string, post: map<string, string>)
    requires j <= i <= |s| && EscapesComplete(s[i..])
    ensures Scan(s, i, j, key, post).body == s[..i] + Rewrite(s[i..])
    decreases |s| - i, 1
  {
    if i == |s| {
      assert s[..i] == s;
    } else if s[i] == '=' || s[i] == '&' {
      ScanAtDelimiter(s, i, j, key, post);
    } else {
      var m := HeadLength(s[i..]);
      ScanStepShape(s, i);
      ScanRewrites(ScanStep(s, i), i + m, j, key, post);
      RewriteJoin(s, ScanStep(s, i), i);
    }
  }

  /** One step of the scan over '=' or '&', which it does not rewrite. */
  lemma ScanAtDelimiter(s: string, i: nat, j: nat, key: string, post: map<string, string>)
    requires j <= i < |s| && EscapesComplete(s[i..]) && (s[i] == '=' || s[i] == '&')
    ensures Scan(s, i, j, key, post).body == s[..i] + Rewrite(s[i..])
    decreases |s| - i, 0
  {
    EscapesStep(s, i);
    if s[i] == '=' {
      ScanRewrites(s, i + 1, i + 1, s[j..i], post);
    } else {
      ScanRewrites(s, i + 1, i + 1, key, post[key := s[j..i]]);
    }
    DelimiterJoin(s, i);
  }

  /** A scannable text stays scannable after the scan's first step. */
  lemma EscapesStep(s: string, i: nat)
    requires i < |s| && EscapesComplete(s[i..])
    ensures HeadLength(s[i..]) == if s[i] == '%' then 3 else 1
    ensures EscapesComplete(s[i + HeadLength(s[i..])..])
  {
    assert s[i..][HeadLength(s[i..])..] == s[i + HeadLength(s[i..])..];
  }

  /** A body whose first step at `i` has been rewritten, followed by the
      rewriting of the rest, is the rewriting from `i`. */
  lemma RewriteJoin(s: string, s1: string, i: nat)
    requires i < |s| && i + HeadLength(s[i..]) <= |s1|
    requires s1[..i + HeadLength(s[i..])] == s[..i] + Head(s[i..])
    requires s1[i + HeadLength(s[i..])..] == s[i + HeadLength(s[i..])..]
    ensures s1[..i + HeadLength(s[i..])] + Rewrite(s1[i + HeadLength(s[i..])..]) == s[..i] + Rewrite(s[i..])
  {
    var m := HeadLength(s[i..]);
    RewriteHead(s[i..]);
    assert s[i..][m..] == s[i + m..];
  }

  /** The same for a character the scan keeps. */
  lemma DelimiterJoin(s: string, i: nat)
    requires i < |s| && s[i] != '+' && s[i] != '%'
    ensures s[..i + 1] + Rewrite(s[i + 1..]) == s[..i] + Rewrite(s[i..])
  {
    RewriteHead(s[i..]);
    assert s[i..][1..] == s[i + 1..];
    assert s[..i + 1] == s[..i] + [s[i]];
  }

  /** Decoding rewrites the whole body as `Rewrite` says. */
  lemma DecodeRewrites(body: string, post: map<string, string>)
    requires EscapesComplete(body)
    ensures Decode(body, post).body == Rewrite(body)
  {
    if |body| > 0 {
      ScanRewrites(body, 0, 0, "", post);
    }
  }

  /** A key or value with no '=' or '&' of its own, whose every escape is complete. */
  predicate Plain(t: string)
    decreases |t|
  {
    |t| == 0 ||
    if t[0] == '%' then |t| >= 3 && Plain(t[3..])
    else t[0] != '=' && t[0] != '&' && Plain(t[1..])
  }

  /** A form as the browser writes it: `k1=v1&k2=v2&...`. */
  function Encode(pairs: seq<(string, string)>): string
  {
    if |pairs| == 0 then []
    else if |pairs| == 1 then pairs[0].0 + "=" + pairs[0].1
    else pairs[0].0 + "=" + pairs[0].1 + "&" + Encode(pairs[1..])
  }

  /** What follows the first pair in `Encode(pairs)`. */
  function Tail(pairs: seq<(string, string)>): string
    requires |pairs| > 0
  {
    if |pairs| == 1 then [] else "&" + Encode(pairs[1..])
  }

  /** The map the pairs should yield, each key and value rewritten; an earlier
      pair wins over a later one with the same rewritten key. */
  function Fields(pairs: seq<(string, string)>): map<string, string>
  {
    if |pairs| == 0 then map[]
    else Fields(pairs[1..])[Rewrite(pairs[0].0) := Rewrite(pairs[0].1)]
  }

  /** The keys of `Fields` are exactly the rewritten keys of the pairs. */
  lemma {:induction false} FieldsKeys(pairs: seq<(string, string)>)
    ensures forall x :: x in Fields(pairs) <==> exists p :: 0 <= p < |pairs| && x == Rewrite(pairs[p].0)
    decreases |pairs|
  {
    if |pairs| > 0 {
      FieldsKeys(pairs[1..]);
      forall x | x in Fields(pairs) ensures exists p :: 0 <= p < |pairs| && x == Rewrite(pairs[p].0) {
        if x != Rewrite(pairs[0].0) {
          assert x in Fields(pairs[1..]);
          var p :| 0 <= p < |pairs[1..]| && x == Rewrite(pairs[1..][p].0);
          assert pairs[1..][p] == pairs[p + 1];
        }
      }
      forall x | exists p :: 0 <= p < |pairs| && x == Rewrite(pairs[p].0) ensures x in Fields(pairs) {
        var p :| 0 <= p < |pairs| && x == Rewrite(pairs[p].0);
        if p > 0 {
          assert pairs[1..][p - 1] == pairs[p];
        }
      }
    }
  }

  /** The pairs are plain, no rewritten key repeats a later one, and the last
      value is not empty (the code stores a trailing pair only when its value
      is not empty). */
  predicate WellFormed(pairs: seq<(string, string)>)
    decreases |pairs|
  {
    && |pairs| > 0 && Plain(pairs[0].0) && Plain(pairs[0].1)
    && if |pairs| == 1 then |pairs[0].1| > 0
       else Rewrite(pairs[0].0) !in Fields(pairs[1..]) && WellFormed(pairs[1..])
  }

  /** A plain stretch followed by a scannable text is scannable. */
  lemma {:induction false} PlainThenEscapes(t: string, u: string)
    requires Plain(t) && EscapesComplete(u)
    ensures EscapesComplete(t + u)
    decreases |t|
  {
    if |t| == 0 {
      assert t + u == u;
    } else {
      if t[0] == '%' {
        PlainThenEscapes(t[3..], u);
        assert (t + u)[3..] == t[3..] + u;
      } else {
        PlainThenEscapes(t[1..], u);
        assert (t + u)[1..] == t[1..] + u;
      }
    }
  }

  /** Every well-formed form is scannable. */
  lemma {:induction false} EncodeEscapes(pairs: seq<(string, string)>)
    requires WellFormed(pairs)
    ensures EscapesComplete(Encode(pairs)) && EscapesComplete(Tail(pairs))
    decreases |pairs|
  {
    EncodeSplit(pairs);
    if |pairs| > 1 {
      EncodeEscapes(pairs[1..]);
      AmpersandEscapes(Encode(pairs[1..]));
    }
    PairEscapes(pairs[0].0, pairs[0].1, Tail(pairs));
  }

  /** An encoded form is its first pair followed by `Tail`. */
  lemma EncodeSplit(pairs: seq<(string, string)>)
    requires |pairs| > 0
    ensures Encode(pairs) == pairs[0].0 + "=" + pairs[0].1 + Tail(pairs)
  {
  }

  lemma AmpersandEscapes(u: string)
    requires EscapesComplete(u)
    ensures EscapesComplete("&" + u)
  {
    assert ("&" + u)[1..] == u;
  }

  /** One step of the scan over a character that is not a delimiter replaces
      `Head` of the rest in place. */
  lemma ScanStepShape(s: string, i: nat)
    requires i < |s| && EscapesComplete(s[i..])
    ensures var m, s1 := HeadLength(s[i..]), ScanStep(s, i);
      && s1[..i + m] == s[..i] + Head(s[i..]) && s1[i + m..] == s[i + m..]
      && EscapesComplete(s[i + m..])
  {
    EscapesStep(s, i);
    StepPrefix(s, i);
  }

  /** The step writes `Head` of the rest over the characters it passes. */
  lemma StepPrefix(s: string, i: nat)
    requires i < |s| && EscapesComplete(s[i..])
    ensures ScanStep(s, i)[..i + HeadLength(s[i..])] == s[..i] + Head(s[i..])
  {
    if s[i] == '%' {
      var r := RewrittenEscape(s[i + 1], s[i + 2]);
      var s1 := s[i + 2 := r[1]][i + 1 := r[0]];
      assert s1[..i + 3] == s[..i] + ['%'] + r;
    } else {
      assert ScanStep(s, i)[..i + 1] == s[..i] + Head(s[i..]);
    }
  }

  /** A pair of plain halves followed by a scannable text is scannable. */
  lemma PairEscapes(k: string, v: string, tail: string)
    requires Plain(k) && Plain(v) && EscapesComplete(tail)
    ensures EscapesComplete(k + "=" + v + tail)
  {
    PlainThenEscapes(v, tail);
    assert ("=" + (v + tail))[1..] == v + tail;
    PlainThenEscapes(k, "=" + (v + tail));
    assert k + "=" + v + tail == k + ("=" + (v + tail));
  }

  /** Storing the first pair before the others stores all of them. */
  lemma StoreFirst(pairs: seq<(string, string)>, post: map<string, string>)
    requires WellFormed(pairs) && post.Keys !! Fields(pairs).Keys
    ensures var K, V := Rewrite(pairs[0].0), Rewrite(pairs[0].1);
      && K !in post
      && (|pairs| > 1 ==> post[K := V] + Fields(pairs[1..]) == post + Fields(pairs))
      && (|pairs| == 1 ==> post[K := V] == post + Fields(pairs))
  {
    var K, V := Rewrite(pairs[0].0), Rewrite(pairs[0].1);
    assert Fields(pairs) == Fields(pairs[1..])[K := V];
    assert K in Fields(pairs);
    if |pairs| == 1 {
      assert Fields(pairs) == map[K := V];
      MergeSingle(post, K, V);
    } else {
      MergeFirst(post, Fields(pairs[1..]), K, V);
    }
  }

  lemma MergeSingle(post: map<string, string>, K: string, V: string)
    ensures post[K := V] == post + map[K := V]
  {
  }

  lemma MergeFirst(post: map<string, string>, f: map<string, string>, K: string, V: string)
    requires K !in f
    ensures post[K := V] + f == post + f[K := V]
  {
  }

  /** Past the first pair, the stored keys stay disjoint from those to come. */
  lemma RestDisjoint(pairs: seq<(string, string)>, post: map<string, string>)
    requires WellFormed(pairs) && |pairs| > 1 && post.Keys !! Fields(pairs).Keys
    ensures post[Rewrite(pairs[0].0) := Rewrite(pairs[0].1)].Keys !! Fields(pairs[1..]).Keys
  {
    var K := Rewrite(pairs[0].0);
    assert Fields(pairs) == Fields(pairs[1..])[K := Rewrite(pairs[0].1)];
    assert Fields(pairs[1..]).Keys <= Fields(pairs).Keys;
  }

  // ---------------------------------------------------------------------------
  // The pairs the scan stores, described without positions or in-place rewriting.

  /** Reading `u` with `pending` already rewritten since the last delimiter: '='
      makes the pending text the key, '&' stores it under the key (overwriting),
      and at the end it is stored only when it is not empty and the key is new. */
  function Collect(pending: string, u: string, key: string, post: map<string, string>): map<string, string>
    decreases |u|
  {
    if |u| == 0 then (if key !in post && |pending| > 0 then post[key := pending] else post)
    else if u[0] == '=' then Collect([], u[1..], pending, post)
    else if u[0] == '&' then Collect([], u[1..], key, post[key := pending])
    else Collect(pending + Head(u), u[HeadLength(u)..], key, post)
  }

  /** The scan stores exactly what `Collect` describes, reading the text from `i`
      with the rewritten text since `j` pending. */
  lemma {:induction false} ScanCollects(s: string, i: nat, j: nat, key: string, post: map<string, string>)
    requires j <= i <= |s| && EscapesComplete(s[i..])
    ensures Scan(s, i, j, key, post).fields == Collect(s[j..i], s[i..], key, post)
    decreases |s| - i, 1
  {
    if i == |s| {
    } else if s[i] == '=' || s[i] == '&' {
      CollectsAtDelimiter(s, i, j, key, post);
    } else {
      var m := HeadLength(s[i..]);
      ScanStepShape(s, i);
      StepSlices(s, ScanStep(s, i), i, j, m);
      ScanCollects(ScanStep(s, i), i + m, j, key, post);
    }
  }

  lemma CollectsAtDelimiter(s: string, i: nat, j: nat, key: string, post: map<string, string>)
    requires j <= i < |s| && EscapesComplete(s[i..]) && (s[i] == '=' || s[i] == '&')
    ensures Scan(s, i, j, key, post).fields == Collect(s[j..i], s[i..], key, post)
    decreases |s| - i, 0
  {
    EscapesStep(s, i);
    DelimiterSlices(s, i);
    if s[i] == '=' {
      ScanCollects(s, i + 1, i + 1, s[j..i], post);
    } else {
      ScanCollects(s, i + 1, i + 1, key, post[key := s[j..i]]);
    }
  }

  lemma DelimiterSlices(s: string, i: nat)
    requires i < |s|
    ensures s[i + 1..i + 1] == [] && s[i..][1..] == s[i + 1..]
  {
  }

  /** After one step the pending text has grown by `Head` and the rest is unread. */
  lemma StepSlices(s: string, s1: string, i: nat, j: nat, m: nat)
    requires j <= i < |s| && m == HeadLength(s[i..]) && |s1| == |s|
    requires s1[..i + m] == s[..i] + Head(s[i..]) && s1[i + m..] == s[i + m..]
    ensures s1[j..i + m] == s[j..i] + Head(s[i..]) && s1[i + m..] == s[i..][m..]
  {
    assert s1[j..i + m] == s1[..i + m][j..];
    assert (s[..i] + Head(s[i..]))[j..] == s[j..i] + Head(s[i..]);
  }

  /** Reading a plain stretch only adds its rewriting to the pending text. */
  lemma {:induction false} CollectPlain(pending: string, t: string, u: string, key: string, post: map<string, string>)
    requires Plain(t)
    ensures Collect(pending, t + u, key, post) == Collect(pending + Rewrite(t), u, key, post)
    decreases |t|
  {
    if |t| == 0 {
      EmptyStretch(pending, t, u);
    } else {
      PlainHead(t, u);
      CollectPlain(pending + Head(t), t[HeadLength(t)..], u, key, post);
      PendingJoin(pending, t);
    }
  }

  lemma EmptyStretch(pending: string, t: string, u: string)
    requires |t| == 0
    ensures t + u == u && pending + Rewrite(t) == pending
  {
  }

  lemma PendingJoin(pending: string, t: string)
    requires |t| > 0
    ensures pending + Head(t) + Rewrite(t[HeadLength(t)..]) == pending + Rewrite(t)
  {
    RewriteHead(t);
  }

  /** A plain stretch starts the same step whatever follows it. */
  lemma PlainHead(t: string, u: string)
    requires Plain(t) && |t| > 0
    ensures (t + u)[0] == t[0] && t[0] != '=' && t[0] != '&'
    ensures HeadLength(t + u) == HeadLength(t) && Head(t + u) == Head(t)
    ensures (t + u)[HeadLength(t)..] == t[HeadLength(t)..] + u && Plain(t[HeadLength(t)..])
  {
    PlainFirstStep(t, u);
    PlainRest(t, u, HeadLength(t));
  }

  lemma PlainFirstStep(t: string, u: string)
    requires Plain(t) && |t| > 0
    ensures (t + u)[0] == t[0] && t[0] != '=' && t[0] != '&'
    ensures HeadLength(t + u) == HeadLength(t) && Head(t + u) == Head(t)
    ensures Plain(t[HeadLength(t)..])
  {
    if t[0] == '%' {
      assert (t + u)[1] == t[1] && (t + u)[2] == t[2];
    }
  }

  lemma PlainRest(t: string, u: string, m: nat)
    requires m <= |t|
    ensures (t + u)[m..] == t[m..] + u
  {
  }

  /** Reading a well-formed form stores every pair, rewritten, on top of what
      was already stored. */
  lemma {:induction false} CollectPairs(key: string, post: map<string, string>, pairs: seq<(string, string)>)
    requires WellFormed(pairs) && post.Keys !! Fields(pairs).Keys
    ensures Collect([], Encode(pairs), key, post) == post + Fields(pairs)
    decreases |pairs|
  {
    var K, V := Rewrite(pairs[0].0), Rewrite(pairs[0].1);
    CollectFirstPair(key, post, pairs);
    StoreFirst(pairs, post);
    if |pairs| > 1 {
      assert ("&" + Encode(pairs[1..]))[1..] == Encode(pairs[1..]);
      RestDisjoint(pairs, post);
      CollectPairs(K, post[K := V], pairs[1..]);
    }
  }

  /** Reading the first pair leaves its rewritten value pending under its
      rewritten key. */
  lemma CollectFirstPair(key: string, post: map<string, string>, pairs: seq<(string, string)>)
    requires |pairs| > 0 && Plain(pairs[0].0) && Plain(pairs[0].1)
    ensures Collect([], Encode(pairs), key, post) == Collect(Rewrite(pairs[0].1), Tail(pairs), Rewrite(pairs[0].0), post)
  {
    var k, v := pairs[0].0, pairs[0].1;
    EncodeSplit(pairs);
    KeyThenRest(k, v, Tail(pairs));
    CollectPlain([], k, "=" + (v + Tail(pairs)), key, post);
    CollectPlain([], v, Tail(pairs), Rewrite(k), post);
    assert [] + Rewrite(k) == Rewrite(k) && [] + Rewrite(v) == Rewrite(v);
  }

  /** A key, then '=' and what follows it. */
  lemma KeyThenRest(k: string, v: string, t: string)
    ensures k + "=" + v + t == k + ("=" + (v + t))
    ensures ("=" + (v + t))[1..] == v + t
  {
    assert ("=" + (v + t))[1..] == v + t;
  }

  /** Decoding any scannable body rewrites it as `Rewrite` says and stores what
      `Collect` says. */
  lemma DecodeCollects(body: string, post: map<string, string>)
    requires EscapesComplete(body)
    ensures Decode(body, post) == Decoded(Rewrite(body), Collect([], body, "", post))
  {
    DecodeRewrites(body, post);
    if |body| > 0 {
      ScanCollects(body, 0, 0, "", post);
      assert body[0..0] == [] && body[0..] == body;
    }
  }

  /** Decoding a well-formed form yields exactly its pairs, each key and value
      rewritten, and leaves the body rewritten. */
  lemma FormRoundTrip(pairs: seq<(string, string)>)
    requires WellFormed(pairs)
    ensures EscapesComplete(Encode(pairs))
    ensures Decode(Encode(pairs), map[]) == Decoded(Rewrite(Encode(pairs)), Fields(pairs))
  {
    EncodeEscapes(pairs);
    DecodeCollects(Encode(pairs), map[]);
    CollectPairs("", map[], pairs);
    assert map[] + Fields(pairs) == Fields(pairs);
  }

  /** The loop of `ParseFromUrlencoded` over a non-empty body: it rewrites
      the body in place while it collects the pairs. The loop works on local
      copies of the body and the pairs, which the caller stores back; nothing
      else reads them meanwhile. */
  method ScanBody(body: string, post: map<string, string>) returns (text: string, fields: map<string, string>)
    requires |body| > 0 && EscapesComplete(body)
    ensures Decoded(text, fields) == Decode(body, post)
  {
    text, fields := body, post;
    ghost var target := Decode(text, fields);
    var key := "";
    var n := |text|;
    var i, j := 0, 0;
    while i < n
      invariant n == |text| && j <= i <= n
      invariant EscapesComplete(text[i..])
      invariant Scan(text, i, j, key, fields) == target
      decreases n - i
    {
      var ch := text[i];
      if ch == '=' {
        ScanAtKeyEnd(text, i, j, key, fields);
        key := text[j..i];
        j := i + 1;
      } else if ch == '+' {
        ScanAtPlus(text, i, j, key, fields);
        text := text[i := ' '];
      } else if ch == '%' {
        EscapesStep(text, i);
        var num := ConvertHex(text[i + 1]) * 16 + ConvertHex(text[i + 2]);
        ScanAtEscape(text, i, j, key, fields, num);
        text := text[i + 2 := ToByteChar(TruncRem(num, 10) + '0' as int)];
        text := text[i + 1 := ToByteChar(TruncDiv(num, 10) + '0' as int)];
        i := i + 2;
      } else if ch == '&' {
        ScanAtPairEnd(text, i, j, key, fields);
        var val := text[j..i];
        j := i + 1;
        fields := fields[key := val];
      } else {
        // Any other character is kept.
        ScanAtKept(text, i, j, key, fields);
      }
      i := i + 1;
    }
    if key !in fields && j < i {
      fields := fields[key := text[j..i]];
    }
    assert target == Decoded(text, fields);
  }
}

module UrlencodedFormExamples {
  import opened UrlencodedForm

  /** `%41` (65) is left as `%65` rather than decoded to 'A', and `%FF` (255)
      becomes `%I5`, since 25 + '0' is 'I'. */
  lemma EscapesKeptAsDecimal()
    ensures RewrittenEscape('4', '1') == "65"
    ensures RewrittenEscape('F', 'F') == "I5"
  {
  }

  /** Two bytes above 0x7F after a '%' (the UTF-8 encoding of an accented
      letter, say) are negative as `char`: `num` is -1879, and the bytes
      written are -187 + '0' and -9 + '0', that is 'u' and a quote. */
  lemma HighBytesEscape()
    ensures EscapeValue(0xC3 as char, 0xA9 as char) == -1879
    ensures RewrittenEscape(0xC3 as char, 0xA9 as char) == "u'"
  {
  }

  /** A key given twice: the pair closed by '&' is stored and the trailing
      pair is dropped, because the code stores a trailing pair only under a
      new key. */
  lemma RepeatedKeyKeepsFirst(k: string, v1: string, v2: string)
    requires Plain(k) && Plain(v1) && Plain(v2) && |v2| > 0
    ensures Collect([], k + "=" + v1 + "&" + k + "=" + v2, "", map[]) == map[Rewrite(k) := Rewrite(v1)]
  {
    var pairs := [(k, v1), (k, v2)];
    TwoPairsEncode(k, v1, k, v2);
    CollectFirstPair("", map[], pairs);
    assert Tail(pairs)[1..] == Encode(pairs[1..]);
    CollectFirstPair(Rewrite(k), map[Rewrite(k) := Rewrite(v1)], pairs[1..]);
  }

  /** With a '&' after the second pair, the second value overwrites the first. */
  lemma RepeatedKeyClosedOverwrites(k: string, v1: string, v2: string)
    requires Plain(k) && Plain(v1) && Plain(v2)
    ensures Collect([], k + "=" + v1 + "&" + k + "=" + v2 + "&", "", map[]) == map[Rewrite(k) := Rewrite(v2)]
  {
    var u := k + "=" + v2 + "&";
    var K := Rewrite(k);
    Regroup(k + "=" + v1 + "&", k, v2);
    CollectClosedPair(k, v1, u, "", map[]);
    NoRest(u);
    CollectClosedPair(k, v2, [], K, map[K := Rewrite(v1)]);
    assert map[K := Rewrite(v1)][K := Rewrite(v2)] == map[K := Rewrite(v2)];
  }

  lemma Regroup(a: string, k: string, v: string)
    ensures a + k + "=" + v + "&" == a + (k + "=" + v + "&")
  {
  }

  lemma NoRest(u: string)
    ensures u == u + []
  {
  }

  /** A pair closed by '&' is stored, overwriting, and becomes the key. */
  lemma CollectClosedPair(k: string, v: string, u: string, key: string, post: map<string, string>)
    requires Plain(k) && Plain(v)
    ensures Collect([], k + "=" + v + "&" + u, key, post) == Collect([], u, Rewrite(k), post[Rewrite(k) := Rewrite(v)])
  {
    assert k + "=" + v + "&" + u == k + ("=" + (v + ("&" + u)));
    CollectPlain([], k, "=" + (v + ("&" + u)), key, post);
    assert ("=" + (v + ("&" + u)))[1..] == v + ("&" + u);
    CollectPlain([], v, "&" + u, Rewrite(k), post);
    assert ("&" + u)[1..] == u;
    assert [] + Rewrite(k) == Rewrite(k) && [] + Rewrite(v) == Rewrite(v);
  }

  lemma TwoPairsEncode(k1: string, v1: string, k2: string, v2: string)
    ensures Encode([(k1, v1), (k2, v2)]) == k1 + "=" + v1 + "&" + k2 + "=" + v2
  {
    assert [(k1, v1), (k2, v2)][1..] == [(k2, v2)];
  }

  /** The form `a=1&b=2` yields the two fields. */
  lemma TwoFieldForm()
    ensures EscapesComplete("a=1&b=2")
    ensures Decode("a=1&b=2", map[]).fields == map["a" := "1", "b" := "2"]
  {
    var pairs := [("a", "1"), ("b", "2")];
    TwoFieldPairs();
    FormRoundTrip(pairs);
  }

  lemma TwoFieldPairs()
    ensures var pairs := [("a", "1"), ("b", "2")];
      WellFormed(pairs) && Encode(pairs) == "a=1&b=2" && Fields(pairs) == map["a" := "1", "b" := "2"]
  {
    var pairs := [("a", "1"), ("b", "2")];
    PlainChar('a');
    PlainChar('1');
    PlainChar('b');
    PlainChar('2');
    assert pairs[1..] == [("b", "2")];
    assert Fields(pairs[1..]) == map["b" := "2"];
    TwoPairsEncode("a", "1", "b", "2");
  }

  /** A single ordinary character is plain and is kept by the rewriting. */
  lemma PlainChar(c: char)
    requires c != '%' && c != '+' && c != '=' && c != '&'
    ensures Plain([c]) && Rewrite([c]) == [c]
  {
    assert [c][1..] == [];
  }
}
