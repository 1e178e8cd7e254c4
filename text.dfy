/** The string operations of JavaScript that the bot relies on: the white-space class of
    `\s` and `trim`, `split` on a character or a character class, `join`, ASCII
    `toLowerCase`/`toUpperCase`, `Number` on digit strings, decimal display of integers
    and `parseInt(s, 10)`. */
module Text {
  import opened Wrappers

  /** WhiteSpace and LineTerminator of ECMA-262: what `\s`, `trim` and `parseInt` skip. */
  predicate IsSpace(c: char) {
    || c == ' ' || c == '\t' || c == '\n' || c == '\r' || c == '\U{000B}' || c == '\U{000C}'
    || c == '\U{00A0}' || c == '\U{1680}' || ('\U{2000}' <= c <= '\U{200A}')
    || c == '\U{2028}' || c == '\U{2029}' || c == '\U{202F}' || c == '\U{205F}'
    || c == '\U{3000}' || c == '\U{FEFF}'
  }

  /** `\d`: the ASCII decimal digits only. */
  predicate IsDigit(c: char) {
    '0' <= c <= '9'
  }

  predicate NoSpace(s: string) {
    forall i :: 0 <= i < |s| ==> !IsSpace(s[i])
  }

  predicate AllSpace(s: string) {
    forall i :: 0 <= i < |s| ==> IsSpace(s[i])
  }

  predicate AllDigits(s: string) {
    forall i :: 0 <= i < |s| ==> IsDigit(s[i])
  }

  /** What `\d+` matches. */
  predicate IsDigits(s: string) {
    |s| > 0 && AllDigits(s)
  }

  /** No character of `s` is one of `seps`. */
  predicate Avoids(s: string, seps: set<char>) {
    forall i :: 0 <= i < |s| ==> s[i] !in seps
  }

  // ---------------------------------------------------------------- trimming

  /** `trimStart`: the longest suffix of `s` that does not begin with white space. */
  function TrimStart(s: string): (r: string)
    ensures |r| <= |s| && r == s[|s| - |r|..]
    ensures AllSpace(s[..|s| - |r|])
    ensures r == [] || !IsSpace(r[0])
    ensures s != [] && IsSpace(s[0]) ==> |r| < |s|
    decreases |s|
  {
    if s != [] && IsSpace(s[0]) then
      var r := TrimStart(s[1..]);
      assert r == s[|s| - |r|..] by {
        assert s[1..][|s| - 1 - |r|..] == s[|s| - |r|..];
      }
      SpaceCons(s, |s| - |r|);
      r
    else
      s
  }

  /** A prefix that starts with white space and continues with white space is white space. */
  lemma SpaceCons(s: string, k: nat)
    requires 0 < k <= |s| && IsSpace(s[0]) && AllSpace(s[1..][..k - 1])
    ensures AllSpace(s[..k])
  {
    forall i | 0 <= i < k ensures IsSpace(s[i]) {
      if i > 0 {
        assert s[i] == s[1..][..k - 1][i - 1];
      }
    }
  }

  /** A suffix that ends with white space and is white space before that is white space. */
  lemma SpaceSnoc(s: string, k: nat)
    requires k < |s| && IsSpace(s[|s| - 1]) && AllSpace(s[..|s| - 1][k..])
    ensures AllSpace(s[k..])
  {
    forall i | k <= i < |s| ensures IsSpace(s[i]) {
      if i < |s| - 1 {
        assert s[i] == s[..|s| - 1][k..][i - k];
      }
    }
  }

  /** `trimEnd`: the longest prefix of `s` that does not end with white space. */
  function TrimEnd(s: string): (r: string)
    ensures |r| <= |s| && r == s[..|r|]
    ensures AllSpace(s[|r|..])
    ensures r == [] || !IsSpace(r[|r| - 1])
    decreases |s|
  {
    if s != [] && IsSpace(s[|s| - 1]) then
      var r := TrimEnd(s[..|s| - 1]);
      SpaceSnoc(s, |r|);
      r
    else
      s
  }

  /** `String.prototype.trim`. */
  function Trim(s: string): string {
    TrimEnd(TrimStart(s))
  }

  /** Leading white space is exactly what TrimStart removes. */
  lemma {:induction false} TrimStartOf(w: string, t: string)
    requires AllSpace(w)
    requires t == [] || !IsSpace(t[0])
    ensures TrimStart(w + t) == t
    decreases |w|
  {
    if w == [] {
      assert w + t == t;
    } else {
      assert (w + t)[1..] == w[1..] + t;
      TrimStartOf(w[1..], t);
    }
  }

  /** Trailing white space is exactly what TrimEnd removes. */
  lemma {:induction false} TrimEndOf(t: string, w: string)
    requires AllSpace(w)
    requires t == [] || !IsSpace(t[|t| - 1])
    ensures TrimEnd(t + w) == t
    decreases |w|
  {
    if w == [] {
      assert t + w == t;
    } else {
      assert (t + w)[..|t + w| - 1] == t + w[..|w| - 1];
      TrimEndOf(t, w[..|w| - 1]);
    }
  }

  /** `trim` removes the white space around a text that neither begins nor ends with it. */
  lemma {:induction false} TrimOf(w1: string, m: string, w2: string)
    requires AllSpace(w1) && AllSpace(w2)
    requires m == [] || (!IsSpace(m[0]) && !IsSpace(m[|m| - 1]))
    ensures Trim(w1 + m + w2) == m
  {
    if m == [] {
      assert w1 + m + w2 == w1 + w2 + [];
      assert AllSpace(w1 + w2);
      TrimStartOf(w1 + w2, []);
      TrimEndOf([], []);
    } else {
      assert w1 + m + w2 == w1 + (m + w2);
      TrimStartOf(w1, m + w2);
      TrimEndOf(m, w2);
    }
  }

  // ---------------------------------------------------------------- splitting

  /** Index of the first character of `s` in `seps`, or `|s|`. */
  function SpanAvoiding(s: string, seps: set<char>): (n: nat)
    ensures n <= |s| && Avoids(s[..n], seps) && (n == |s| || s[n] in seps)
  {
    if s == [] || s[0] in seps then 0 else 1 + SpanAvoiding(s[1..], seps)
  }

  lemma JoinCons(p: string, parts: seq<string>, sep: string)
    requires |parts| >= 1
    ensures Join([p] + parts, sep) == p + (sep + Join(parts, sep))
  {
    assert ([p] + parts)[1..] == parts;
    assert p + sep + Join(parts, sep) == p + (sep + Join(parts, sep));
  }

  /** `s.split(c)` for a one-character separator, and `s.split(/[...]/)` for a
      character class: the maximal runs between separators, possibly empty. */
  function Split(s: string, seps: set<char>): (r: seq<string>)
    ensures |r| >= 1
    ensures forall k :: 0 <= k < |r| ==> Avoids(r[k], seps)
    decreases |s|
  {
    var n := SpanAvoiding(s, seps);
    if n == |s| then [s] else [s[..n]] + Split(s[n + 1..], seps)
  }

  /** `parts.join(sep)`. */
  function Join(parts: seq<string>, sep: string): string
  {
    if |parts| == 0 then []
    else if |parts| == 1 then parts[0]
    else parts[0] + sep + Join(parts[1..], sep)
  }

  lemma {:induction false} SpanAvoidingOf(p: string, rest: string, seps: set<char>)
    requires Avoids(p, seps)
    requires rest == [] || rest[0] in seps
    ensures SpanAvoiding(p + rest, seps) == |p|
    decreases |p|
  {
    if p == [] {
      assert p + rest == rest;
    } else {
      assert (p + rest)[1..] == p[1..] + rest;
      SpanAvoidingOf(p[1..], rest, seps);
    }
  }

  /** A piece without separators followed by a separator is the first piece. */
  lemma SplitCons(p: string, c: char, rest: string, seps: set<char>)
    requires Avoids(p, seps) && c in seps
    ensures Split(p + [c] + rest, seps) == [p] + Split(rest, seps)
  {
    var s := p + [c] + rest;
    assert s == p + ([c] + rest);
    SpanAvoidingOf(p, [c] + rest, seps);
    assert s[..|p|] == p;
    assert s[|p| + 1..] == rest;
  }

  /** The first piece of a split is the text up to the first separator. */
  lemma SplitHead(s: string, seps: set<char>)
    ensures Split(s, seps)[0] == s[..SpanAvoiding(s, seps)]
  {
  }

  /** A text without separators splits into itself. */
  lemma SplitNone(p: string, seps: set<char>)
    requires Avoids(p, seps)
    ensures Split(p, seps) == [p]
  {
    assert p == p + [];
    SpanAvoidingOf(p, [], seps);
  }

  /** Round trip: joining the pieces of a split with the separator gives the text back. */
  lemma {:induction false} JoinSplit(s: string, c: char)
    ensures Join(Split(s, {c}), [c]) == s
    decreases |s|
  {
    var n := SpanAvoiding(s, {c});
    if n < |s| {
      var rest := Split(s[n + 1..], {c});
      JoinSplit(s[n + 1..], c);
      assert s[n] == c;
      assert s == s[..n] + [c] + s[n + 1..];
    }
  }

  /** Round trip the other way: splitting a join of separator-free pieces gives them back. */
  lemma {:induction false} SplitJoin(parts: seq<string>, c: char)
    requires |parts| >= 1
    requires forall k :: 0 <= k < |parts| ==> Avoids(parts[k], {c})
    ensures Split(Join(parts, [c]), {c}) == parts
  {
    if |parts| == 1 {
      SplitNone(parts[0], {c});
    } else {
      SplitJoin(parts[1..], c);
      SplitCons(parts[0], c, Join(parts[1..], [c]), {c});
      assert parts[0] + [c] + Join(parts[1..], [c]) == Join(parts, [c]);
    }
  }

  // ---------------------------------------------------------------- white-space splitting

  /** Length of the longest prefix of `s` without white space. */
  function SpanNonSpace(s: string): (n: nat)
    ensures n <= |s| && NoSpace(s[..n]) && (n == |s| || IsSpace(s[n]))
  {
    if s == [] || IsSpace(s[0]) then 0 else 1 + SpanNonSpace(s[1..])
  }

  /** `s.split(/\s+/)`: the pieces between maximal runs of white space; a leading
      (trailing) run yields an empty first (last) piece. */
  function SplitWs(s: string): (r: seq<string>)
    ensures |r| >= 1
    ensures r[0] == s[..SpanNonSpace(s)]
    ensures forall k :: 0 <= k < |r| ==> NoSpace(r[k])
    decreases |s|
  {
    var n := SpanNonSpace(s);
    if n == |s| then [s] else [s[..n]] + SplitWs(TrimStart(s[n..]))
  }

  /** Reference definition: every maximal run of white space replaced by one space
      (a white-space character is kept, as a space, only where its run ends). */
  function Collapse(s: string): string
  {
    if s == [] then []
    else
      var head := if !IsSpace(s[0]) then [s[0]] else if |s| > 1 && IsSpace(s[1]) then [] else " ";
      head + Collapse(s[1..])
  }

  lemma {:induction false} CollapseNoSpacePrefix(p: string, t: string)
    requires NoSpace(p)
    ensures Collapse(p + t) == p + Collapse(t)
    decreases |p|
  {
    if p != [] {
      assert (p + t)[1..] == p[1..] + t;
      CollapseNoSpacePrefix(p[1..], t);
    } else {
      assert p + t == t;
    }
  }

  lemma {:induction false} CollapseSpaceRun(w: string, t: string)
    requires |w| > 0 && AllSpace(w)
    requires t == [] || !IsSpace(t[0])
    ensures Collapse(w + t) == " " + Collapse(t)
    decreases |w|
  {
    assert (w + t)[1..] == w[1..] + t;
    if |w| > 1 {
      CollapseSpaceRun(w[1..], t);
    } else {
      assert w[1..] + t == t;
    }
  }

  lemma CollapseWordThenRun(p: string, w: string, t: string)
    requires NoSpace(p) && |w| > 0 && AllSpace(w)
    requires t == [] || !IsSpace(t[0])
    ensures Collapse(p + (w + t)) == p + (" " + Collapse(t))
  {
    CollapseNoSpacePrefix(p, w + t);
    CollapseSpaceRun(w, t);
  }

  lemma Halves(s: string, k: nat)
    requires k <= |s|
    ensures s == s[..k] + s[k..]
  {
  }

  lemma JoinSplitWsStep(s: string, n: nat, t: string, rest: seq<string>)
    requires n < |s| && NoSpace(s[..n]) && IsSpace(s[n])
    requires t == TrimStart(s[n..]) && |rest| >= 1
    requires Join(rest, " ") == Collapse(t)
    ensures Join([s[..n]] + rest, " ") == Collapse(s)
  {
    var p, r := s[..n], s[n..];
    var w := r[..|r| - |t|];
    assert s == p + (w + t) && |w| > 0 && AllSpace(w) by {
      Halves(r, |r| - |t|);
      Halves(s, n);
    }
    assert Join([p] + rest, " ") == p + (" " + Collapse(t)) by {
      JoinCons(p, rest, " ");
    }
    CollapseWordThenRun(p, w, t);
  }

  /** `split(/\s+/)` then `join(' ')` collapses every run of white space to one space. */
  lemma {:induction false} JoinSplitWs(s: string)
    ensures Join(SplitWs(s), " ") == Collapse(s)
    decreases |s|
  {
    var n := SpanNonSpace(s);
    if n == |s| {
      assert s[..n] == s;
      assert SplitWs(s) == [s];
      CollapseNoSpacePrefix(s, []);
      assert s + [] == s;
    } else {
      var t := TrimStart(s[n..]);
      JoinSplitWs(t);
      JoinSplitWsStep(s, n, t, SplitWs(t));
    }
  }

  lemma {:induction false} SpanNonSpaceOf(w: string, rest: string)
    requires NoSpace(w)
    requires rest == [] || IsSpace(rest[0])
    ensures SpanNonSpace(w + rest) == |w|
    decreases |w|
  {
    if w == [] {
      assert w + rest == rest;
    } else {
      assert (w + rest)[1..] == w[1..] + rest;
      SpanNonSpaceOf(w[1..], rest);
    }
  }

  /** A text that begins with a word followed by white space or nothing splits into that
      word and the split of what follows the white space. */
  lemma SplitWsWord(w: string, rest: string)
    requires NoSpace(w)
    requires rest == [] || IsSpace(rest[0])
    ensures rest == [] ==> SplitWs(w + rest) == [w]
    ensures rest != [] ==> SplitWs(w + rest) == [w] + SplitWs(TrimStart(rest))
  {
    var s := w + rest;
    SpanNonSpaceOf(w, rest);
    assert s[..|w|] == w && s[|w|..] == rest;
  }

  /** The words of a command line: its first word, then the rest with every run of
      white space collapsed to one space. */
  lemma CommandWords(name: string, rest: string)
    requires NoSpace(name)
    requires rest == [] || IsSpace(rest[0])
    ensures SplitWs(name + rest)[0] == name
    ensures Join(SplitWs(name + rest)[1..], " ") == Collapse(TrimStart(rest))
  {
    SplitWsWord(name, rest);
    if rest != [] {
      JoinSplitWs(TrimStart(rest));
      assert SplitWs(name + rest)[1..] == SplitWs(TrimStart(rest));
    } else {
      assert TrimStart(rest) == [];
    }
  }

  // ---------------------------------------------------------------- letter case

  function LowerChar(c: char): char {
    if 'A' <= c <= 'Z' then (c as int + 32) as char else c
  }

  function UpperChar(c: char): char {
    if 'a' <= c <= 'z' then (c as int - 32) as char else c
  }

  /** `toLowerCase`, on the ASCII letters. */
  function ToLower(s: string): (r: string)
    ensures |r| == |s|
  {
    seq(|s|, i requires 0 <= i < |s| => LowerChar(s[i]))
  }

  /** `s.charAt(0).toUpperCase() + s.slice(1)`, on the ASCII letters. */
  function Capitalize(s: string): string {
    if s == [] then [] else [UpperChar(s[0])] + s[1..]
  }

  // ---------------------------------------------------------------- numbers

  function DigitValue(c: char): nat
    requires IsDigit(c)
  {
    c as int - '0' as int
  }

  function DigitChar(d: nat): (c: char)
    requires d < 10
    ensures IsDigit(c) && DigitValue(c) == d
  {
    ('0' as int + d) as char
  }

  /** The value of a decimal digit string (leading zeros allowed). */
  function DigitsValue(s: string): nat
    requires AllDigits(s)
    decreases |s|
  {
    if s == [] then 0 else 10 * DigitsValue(s[..|s| - 1]) + DigitValue(s[|s| - 1])
  }

  /** Decimal display of a natural number, as template literals render it. */
  function NatToString(n: nat): (r: string)
    ensures IsDigits(r) && DigitsValue(r) == n
    ensures r[0] != '0' || r == "0"
    decreases n
  {
    if n < 10 then [DigitChar(n)]
    else
      var r := NatToString(n / 10) + [DigitChar(n % 10)];
      assert r[..|r| - 1] == NatToString(n / 10);
      r
  }

  /** Decimal display of an integer. */
  function IntToString(n: int): string {
    if n < 0 then "-" + NatToString(-n) else NatToString(n)
  }

  /** A digit string whose first digit is not zero has a positive value. */
  lemma {:induction false} LeadingDigitPositive(s: string)
    requires IsDigits(s) && s[0] != '0'
    ensures DigitsValue(s) >= 1
    decreases |s|
  {
    if |s| > 1 {
      LeadingDigitPositive(s[..|s| - 1]);
    }
  }

  /** Round trip: displaying the value of a digit string without leading zeros gives it back. */
  lemma {:induction false} NatToStringOfDigits(s: string)
    requires IsDigits(s) && (s[0] != '0' || s == "0")
    ensures NatToString(DigitsValue(s)) == s
    decreases |s|
  {
    if |s| > 1 {
      var p := s[..|s| - 1];
      NatToStringOfDigits(p);
      LeadingDigitPositive(p);
      var v := DigitsValue(s);
      assert v == 10 * DigitsValue(p) + DigitValue(s[|s| - 1]);
      assert v / 10 == DigitsValue(p) && v % 10 == DigitValue(s[|s| - 1]);
      assert s == p + [s[|s| - 1]];
    }
  }

  /** `Number(s)` for the plain digit strings this model covers; `None` stands for
      every other text (JavaScript yields `NaN` or reads a wider numeric grammar). */
  function Number(s: string): (r: Option<nat>)
    ensures r.Some? <==> IsDigits(s)
  {
    if IsDigits(s) then Some(DigitsValue(s)) else None
  }

  /** Length of the longest prefix of digits. */
  function SpanDigits(s: string): (n: nat)
    ensures n <= |s| && AllDigits(s[..n]) && (n == |s| || !IsDigit(s[n]))
  {
    if s == [] || !IsDigit(s[0]) then 0 else 1 + SpanDigits(s[1..])
  }

  /** `parseInt(s, 10)`: skip white space, read an optional sign and the longest run of
      digits; `None` (NaN) when there is no digit. */
  function ParseInt(s: string): (r: Option<int>)
  {
    ParseSigned(TrimStart(s))
  }

  /** An optional sign, then the longest run of digits. */
  function ParseSigned(t: string): Option<int> {
    if t != [] && t[0] == '-' then
      (match ParseDigits(t[1..])
       case None => None
       case Some(v) => Some(-(v as int)))
    else if t != [] && t[0] == '+' then ParseDigits(t[1..])
    else ParseDigits(t)
  }

  /** The value of the longest run of digits at the start of `u`, if there is one. */
  function ParseDigits(u: string): Option<nat> {
    var n := SpanDigits(u);
    if n == 0 then None else Some(DigitsValue(u[..n]))
  }

  lemma {:induction false} SpanDigitsOf(d: string, tail: string)
    requires AllDigits(d)
    requires tail == [] || !IsDigit(tail[0])
    ensures SpanDigits(d + tail) == |d|
    decreases |d|
  {
    if d == [] {
      assert d + tail == tail;
    } else {
      assert (d + tail)[1..] == d[1..] + tail;
      SpanDigitsOf(d[1..], tail);
    }
  }

  /** `parseInt` reads back the decimal display of any integer, whatever follows it
      as long as it does not begin with a digit. */
  lemma ParseIntOfDisplay(n: int, tail: string)
    requires tail == [] || !IsDigit(tail[0])
    ensures ParseInt(IntToString(n) + tail) == Some(n)
  {
    if n < 0 {
      var d := NatToString(-n);
      assert IntToString(n) + tail == "-" + (d + tail);
      ParseIntOfNegative(d, tail);
    } else {
      ParseIntOfUnsigned(NatToString(n), tail);
    }
  }

  /** A digit string followed by a non-digit is read as its value. */
  lemma ParseIntOfUnsigned(d: string, tail: string)
    requires IsDigits(d)
    requires tail == [] || !IsDigit(tail[0])
    ensures ParseInt(d + tail) == Some(DigitsValue(d))
  {
    var s := d + tail;
    assert s[0] == d[0];
    TrimStartNone(s);
    ParseDigitsOf(d, tail);
  }

  /** A minus sign, a digit string and a non-digit are read as the negated value. */
  lemma ParseIntOfNegative(d: string, tail: string)
    requires IsDigits(d)
    requires tail == [] || !IsDigit(tail[0])
    ensures ParseInt("-" + (d + tail)) == Some(-(DigitsValue(d) as int))
  {
    var s := "-" + (d + tail);
    assert s[0] == '-' && s[1..] == d + tail;
    TrimStartNone(s);
    ParseDigitsOf(d, tail);
  }

  /** `parseInt` skips leading white space and stops at the first character after the
      digits, so trimming its argument first changes nothing. */
  lemma ParseIntTrim(s: string)
    ensures ParseInt(Trim(s)) == ParseInt(s)
  {
    var t := TrimStart(s);
    var e := TrimEnd(t);
    if e == [] {
      assert t[|e|..] == t;
    } else {
      assert e[0] == t[0];
      TrimStartNone(e);
      ParseSignedPrefix(t, |e|);
    }
  }

  /** White space after the text does not change what `parseInt` reads. */
  lemma ParseSignedPrefix(t: string, k: nat)
    requires 1 <= k <= |t| && AllSpace(t[k..])
    ensures ParseSigned(t[..k]) == ParseSigned(t)
  {
    var p := t[..k];
    assert p[0] == t[0];
    if t[0] == '-' || t[0] == '+' {
      assert p[1..] == t[1..][..k - 1];
      assert t[1..][k - 1..] == t[k..];
      ParseDigitsPrefix(t[1..], k - 1);
    } else {
      ParseDigitsPrefix(t, k);
    }
  }

  lemma ParseDigitsPrefix(u: string, k: nat)
    requires k <= |u| && AllSpace(u[k..])
    ensures ParseDigits(u[..k]) == ParseDigits(u)
  {
    SpanDigitsPrefix(u, k);
    var n := SpanDigits(u);
    assert u[..k][..n] == u[..n];
  }

  lemma {:induction false} SpanDigitsPrefix(u: string, k: nat)
    requires k <= |u| && AllSpace(u[k..])
    ensures SpanDigits(u[..k]) == SpanDigits(u)
    decreases k
  {
    if k == 0 {
      assert u[..k] == [];
      if u != [] {
        assert IsSpace(u[k..][0]);
      }
    } else if IsDigit(u[0]) {
      assert u[..k][1..] == u[1..][..k - 1];
      assert u[1..][k - 1..] == u[k..];
      SpanDigitsPrefix(u[1..], k - 1);
    } else {
      assert u[..k][0] == u[0];
    }
  }

  lemma TrimStartNone(s: string)
    requires s != [] && !IsSpace(s[0])
    ensures TrimStart(s) == s
  {
  }

  lemma ParseDigitsOf(d: string, tail: string)
    requires IsDigits(d)
    requires tail == [] || !IsDigit(tail[0])
    ensures ParseDigits(d + tail) == Some(DigitsValue(d))
  {
    SpanDigitsOf(d, tail);
    assert (d + tail)[..|d|] == d;
  }
}
