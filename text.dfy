/**
 * The string operations the reader applies to a decoded line: Python's
 * `str.strip()`, `str.startswith`, `str.count` and `str.split`, together with
 * the comma join that the CSV writer performs on a row (quoting aside).
 */
module Text {
  import opened Seqs

  /** Python's `str.isspace()` code points: what `str.strip()` with no argument removes. */
  predicate IsSpace(c: char) {
    || c == ' '
    || ('\t' <= c <= '\r')
    || ('\U{1C}' <= c <= '\U{1F}')
    || c == '\U{85}' || c == '\U{A0}' || c == '\U{1680}'
    || ('\U{2000}' <= c <= '\U{200A}')
    || c == '\U{2028}' || c == '\U{2029}' || c == '\U{202F}' || c == '\U{205F}' || c == '\U{3000}'
  }

  /** The first index at or after `i` that does not hold whitespace, or `|s|` if there is none. */
  function SpanStart(s: string, i: nat): (r: nat)
    requires i <= |s|
    ensures i <= r <= |s|
    ensures forall k :: i <= k < r ==> IsSpace(s[k])
    ensures r < |s| ==> !IsSpace(s[r])
    decreases |s| - i
  {
    if i < |s| && IsSpace(s[i]) then SpanStart(s, i + 1) else i
  }

  /** The end of `s[lo..j]` once its trailing whitespace is dropped. */
  function SpanEnd(s: string, lo: nat, j: nat): (r: nat)
    requires lo <= j <= |s|
    ensures lo <= r <= j
    ensures forall k :: r <= k < j ==> IsSpace(s[k])
    ensures lo < r ==> !IsSpace(s[r - 1])
    decreases j
  {
    if lo < j && IsSpace(s[j - 1]) then SpanEnd(s, lo, j - 1) else j
  }

  /** Python's `s.strip()`: `s` without its leading and trailing whitespace. */
  function Strip(s: string): (r: string)
    ensures r != [] ==> !IsSpace(r[0]) && !IsSpace(r[|r| - 1])
    ensures r == [] <==> forall k :: 0 <= k < |s| ==> IsSpace(s[k])
  {
    var i := SpanStart(s, 0);
    s[i..SpanEnd(s, i, |s|)]
  }

  /** Every character of `s` is whitespace. */
  predicate AllSpace(s: string) {
    forall k :: 0 <= k < |s| ==> IsSpace(s[k])
  }

  /** Stripping removes only whitespace, and only at the two ends: the result is a slice of `s`. */
  lemma StripKeepsMiddle(s: string)
    ensures exists i, j :: 0 <= i <= j <= |s| && Strip(s) == s[i..j] && AllSpace(s[..i]) && AllSpace(s[j..])
  {
    var i := SpanStart(s, 0);
    var j := SpanEnd(s, i, |s|);
    forall k | 0 <= k < i ensures IsSpace(s[..i][k]) {
      assert s[..i][k] == s[k];
    }
    forall k | 0 <= k < |s| - j ensures IsSpace(s[j..][k]) {
      assert s[j..][k] == s[j + k];
    }
    assert Strip(s) == s[i..j];
  }

  /** Stripping is idempotent: a stripped line is its own strip. */
  lemma StripIdempotent(s: string)
    ensures Strip(Strip(s)) == Strip(s)
  {
    var r := Strip(s);
    assert SpanStart(r, 0) == 0;
    assert SpanEnd(r, 0, |r|) == |r|;
    assert r[0..|r|] == r;
  }

  /** Python's `s.startswith(p)`. */
  predicate StartsWith(s: string, p: string) {
    |p| <= |s| && s[..|p|] == p
  }

  /** Python's `s.count(c)` for a one-character argument. */
  function Count(s: string, c: char): nat
    decreases |s|
  {
    if s == [] then 0 else (if s[0] == c then 1 else 0) + Count(s[1..], c)
  }

  /** `Count` is the multiplicity of the character in the string. */
  lemma {:induction false} CountIsMultiplicity(s: string, c: char)
    ensures Count(s, c) == multiset(s)[c]
    decreases |s|
  {
    if s != [] {
      CountIsMultiplicity(s[1..], c);
      assert s == [s[0]] + s[1..];
    }
  }

  /** The fields of `parts` separated by `sep`; what a CSV writer emits for a row with no quoting. */
  function Join(parts: seq<string>, sep: char): string
    decreases |parts|
  {
    if |parts| == 0 then ""
    else if |parts| == 1 then parts[0]
    else parts[0] + [sep] + Join(parts[1..], sep)
  }

  /** Python's `s.split(sep)` for a one-character separator: one more piece than separators, none holding a separator, joining back to `s`. */
  function Split(s: string, sep: char): (r: seq<string>)
    ensures |r| == Count(s, sep) + 1
    ensures forall i :: 0 <= i < |r| ==> sep !in r[i]
    ensures Join(r, sep) == s
    decreases |s|
  {
    if s == [] then [""]
    else
      var rest := Split(s[1..], sep);
      if s[0] == sep then
        var r := [""] + rest;
        assert r[1..] == rest;
        r
      else
        var r := [[s[0]] + rest[0]] + rest[1..];
        assert |rest| > 1 ==> r[1..] == rest[1..] && Join(rest, sep) == rest[0] + [sep] + Join(rest[1..], sep);
        r
  }

  /** Splitting a separator-free prefix glued to `w` extends the first piece of `w`'s split. */
  lemma {:induction false} SplitPrefix(p: string, w: string, sep: char)
    requires sep !in p
    ensures Split(p + w, sep) == [p + Split(w, sep)[0]] + Split(w, sep)[1..]
    decreases |p|
  {
    if p != [] {
      var pw, ws := p + w, Split(w, sep);
      ConcatHeadTail(p, w);
      SplitPrefix(p[1..], w, sep);
      var rest := Split(pw[1..], sep);
      ConsParts(p[1..] + ws[0], ws[1..]);
      ConcatHeadTail(p, ws[0]);
    } else {
      EmptyConcat(w);
      EmptyConcat(Split(w, sep)[0]);
      HeadTail(Split(w, sep));
    }
  }

  /** Splitting the join of separator-free fields gives the fields back. */
  lemma {:induction false} SplitJoin(parts: seq<string>, sep: char)
    requires parts != []
    requires forall i :: 0 <= i < |parts| ==> sep !in parts[i]
    ensures Split(Join(parts, sep), sep) == parts
    decreases |parts|
  {
    if |parts| == 1 {
      SplitPrefix(parts[0], "", sep);
      assert parts[0] + "" == parts[0];
    } else {
      var tail := Join(parts[1..], sep);
      SplitJoin(parts[1..], sep);
      assert parts[0] + [sep] + tail == parts[0] + ([sep] + tail);
      SplitPrefix(parts[0], [sep] + tail, sep);
      assert ([sep] + tail)[1..] == tail;
      var rest := Split([sep] + tail, sep);
      assert rest == [""] + parts[1..];
      assert rest[0] == "" && rest[1..] == parts[1..];
      assert parts[0] + "" == parts[0];
      assert parts == [parts[0]] + parts[1..];
    }
  }

  /** The last field of a join is everything after the last separator. */
  lemma {:induction false} JoinLast(parts: seq<string>, sep: char)
    requires |parts| >= 2
    ensures Join(parts, sep) == Join(parts[..|parts| - 1], sep) + [sep] + parts[|parts| - 1]
    decreases |parts|
  {
    if |parts| > 2 {
      JoinLast(parts[1..], sep);
      assert parts[1..][..|parts| - 2] == parts[..|parts| - 1][1..];
    }
  }
}
