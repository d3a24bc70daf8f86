/** The Python string and list operations the matcher and the spec parser rely on:
    `index`, `strip`, `split`, `in` on strings, `re.sub("\W+", "", s)` and
    `str.replace`, each written out over `seq<char>`. */
module Text {
  import opened Outcomes

  /** First position of `x` in `s` (Python's `s.index(x)`, with `None` for the
      `ValueError`). */
  function Find<T(==)>(s: seq<T>, x: T): (r: Option<nat>)
    ensures r.None? <==> x !in s
    ensures r.Some? ==> r.value < |s| && s[r.value] == x && x !in s[..r.value]
  {
    if s == [] then None
    else if s[0] == x then Some(0)
    else match Find(s[1..], x)
      case None => None
      case Some(k) => assert s[1..][..k] == s[1..k + 1]; Some(k + 1)
  }

  /** `s` without its element at `i` (Python's `del s[i]`). */
  function Remove<T>(s: seq<T>, i: nat): (r: seq<T>)
    requires i < |s|
    ensures |r| == |s| - 1
    ensures forall j :: 0 <= j < i ==> r[j] == s[j]
    ensures forall j :: i <= j < |r| ==> r[j] == s[j + 1]
    ensures multiset(r) + multiset{s[i]} == multiset(s)
  {
    assert s == s[..i] + [s[i]] + s[i + 1..];
    s[..i] + s[i + 1..]
  }

  /** Python's `\s` on ASCII text, which is also what `str.isspace` accepts
      there: space, tab, the line breaks U+000A to U+000D and the separators
      U+001C to U+001F. */
  predicate IsSpace(c: char) {
    c == ' ' || '\t' <= c <= '\r' || '\U{1C}' <= c <= '\U{1F}'
  }

  predicate IsQuote(c: char) {
    c == '\'' || c == '"'
  }

  /** Python's `\w` for ASCII text. */
  predicate IsWordChar(c: char) {
    ('a' <= c <= 'z') || ('A' <= c <= 'Z') || ('0' <= c <= '9') || c == '_'
  }

  /** The longest suffix of `s` whose first character fails `p`. */
  function DropWhile(s: string, p: char -> bool): (r: string)
    ensures |r| <= |s| && (|r| == |s| ==> r == s)
    ensures |r| < |s| ==> forall i :: 0 <= i < |r| ==> r[i] == s[|s| - |r| + i]
    ensures forall i :: 0 <= i < |s| - |r| ==> p(s[i])
    ensures r != [] ==> !p(r[0])
  {
    if s != [] && p(s[0]) then
      DropWhile(s[1..], p)
    else s
  }

  /** The longest prefix of `s` whose last character fails `p`. */
  function DropWhileEnd(s: string, p: char -> bool): (r: string)
    ensures |r| <= |s| && forall i :: 0 <= i < |r| ==> r[i] == s[i]
    ensures forall i :: |r| <= i < |s| ==> p(s[i])
    ensures r != [] ==> !p(r[|r| - 1])
  {
    if s != [] && p(s[|s| - 1]) then
      DropWhileEnd(s[..|s| - 1], p)
    else s
  }

  /** Python's `s.strip("'\"")`: quote characters removed from both ends. */
  function StripQuotes(s: string): (r: string)
    ensures |r| <= |s|
    ensures r != [] ==> !IsQuote(r[0]) && !IsQuote(r[|r| - 1])
    ensures exists a, b :: (0 <= a <= b <= |s| && r == s[a..b] &&
      (forall i :: 0 <= i < a ==> IsQuote(s[i])) && (forall i :: b <= i < |s| ==> IsQuote(s[i])))
  {
    var d := DropWhile(s, IsQuote);
    var a := |s| - |d|;
    DropSlice(s, a, d, IsQuote);
    var e := DropWhileEnd(d, IsQuote);
    DropEndSlice(s, a, d, e, IsQuote);
    e
  }

  /** The text `DropWhile` keeps is the slice after the characters it drops. */
  lemma DropSlice(s: string, a: int, d: string, p: char -> bool)
    requires d == DropWhile(s, p) && a == |s| - |d|
    ensures 0 <= a <= |s| && d == s[a..] && forall i :: 0 <= i < a ==> p(s[i])
  {
  }

  /** A leading run of `p` characters is dropped up to the first character
      that fails `p`. */
  lemma {:induction false} DropLeading(w: string, a: string, p: char -> bool)
    requires forall i :: 0 <= i < |w| ==> p(w[i])
    requires a == [] || !p(a[0])
    ensures DropWhile(w + a, p) == a
  {
    if w != [] {
      assert (w + a)[1..] == w[1..] + a;
      DropLeading(w[1..], a, p);
    }
  }

  /** Cutting a trailing run of `p` characters off the slice `s[a..]` leaves a
      slice of `s` with only `p` characters after it. */
  lemma DropEndSlice(s: string, a: int, d: string, e: string, p: char -> bool)
    requires 0 <= a <= |s| && d == s[a..] && e == DropWhileEnd(d, p)
    requires forall i :: 0 <= i < a ==> p(s[i])
    ensures exists x, y :: (0 <= x <= y <= |s| && e == s[x..y] &&
      (forall i :: 0 <= i < x ==> p(s[i])) && (forall i :: y <= i < |s| ==> p(s[i])))
  {
    var y := a + |e|;
    assert e == s[a..y];
    forall i | y <= i < |s| ensures p(s[i]) {
      assert s[i] == d[i - a];
    }
  }

  /** Python's `s.split(c)` for a one-character separator. */
  function SplitOn(s: string, c: char): (r: seq<string>)
    ensures |r| >= 1
    ensures forall i :: 0 <= i < |r| ==> c !in r[i] && |r[i]| <= |s|
    ensures Join(r, c) == s
  {
    match Find(s, c)
    case None => [s]
    case Some(k) =>
      var rest := SplitOn(s[k + 1..], c);
      assert s == s[..k] + [c] + s[k + 1..];
      [s[..k]] + rest
  }

  /** Python's `c.join(parts)`. */
  function Join(parts: seq<string>, c: char): string
    requires |parts| >= 1
  {
    if |parts| == 1 then parts[0] else parts[0] + [c] + Join(parts[1..], c)
  }

  /** Python's `sub in s`. */
  predicate Contains(s: string, sub: string) {
    (|sub| <= |s| && s[..|sub|] == sub) || (s != [] && Contains(s[1..], sub))
  }

  /** `re.sub("\W+", "", s)`: every non-word character dropped. */
  function WordChars(s: string): (r: string)
    ensures forall i :: 0 <= i < |r| ==> IsWordChar(r[i])
    ensures |r| <= |s|
  {
    if s == [] then []
    else (if IsWordChar(s[0]) then [s[0]] else []) + WordChars(s[1..])
  }

  /** Dropping the non-word characters of a concatenation drops them from each
      part, so the kept characters stay in their order. */
  lemma {:induction false} WordCharsConcat(a: string, b: string)
    ensures WordChars(a + b) == WordChars(a) + WordChars(b)
  {
    if a != [] {
      var head := if IsWordChar(a[0]) then [a[0]] else [];
      assert (a + b)[0] == a[0] && (a + b)[1..] == a[1..] + b;
      assert WordChars(a + b) == head + WordChars(a[1..] + b);
      WordCharsConcat(a[1..], b);
      Assoc(head, WordChars(a[1..]), WordChars(b));
    } else {
      assert a + b == b;
    }
  }

  /** Every word character of `s` is kept as often as it occurs. */
  lemma {:induction false} WordCharsCount(s: string)
    ensures forall c :: IsWordChar(c) ==> multiset(WordChars(s))[c] == multiset(s)[c]
  {
    if s != [] {
      assert s == [s[0]] + s[1..];
      WordCharsCount(s[1..]);
    }
  }

  /** `s.replace(a, b)` for one-character `a` and `b`. */
  function ReplaceChar(s: string, a: char, b: char): (r: string)
    ensures |r| == |s|
    ensures forall i :: 0 <= i < |s| ==> r[i] == (if s[i] == a then b else s[i])
  {
    if s == [] then [] else [if s[0] == a then b else s[0]] + ReplaceChar(s[1..], a, b)
  }

  /** Joining what `SplitOn` cut gives the text back, and cutting a join of
      separator-free pieces gives the pieces back. */
  lemma {:induction false} SplitJoin(parts: seq<string>, c: char)
    requires |parts| >= 1
    requires forall i :: 0 <= i < |parts| ==> c !in parts[i]
    ensures SplitOn(Join(parts, c), c) == parts
  {
    JoinStart(parts, c);
    if |parts| > 1 {
      var tail := Join(parts[1..], c);
      CutAround(parts[0], c, tail);
      FindFirst(Join(parts, c), c, |parts[0]|);
      SplitJoin(parts[1..], c);
      HeadTail(parts);
    } else {
      assert Find(parts[0], c) == None;
    }
  }

  /** An occurrence with none before it is the one `Find` reports. */
  lemma FindFirst<T>(s: seq<T>, x: T, k: nat)
    requires k < |s| && s[k] == x && x !in s[..k]
    ensures Find(s, x) == Some(k)
  {
    assert s[k] == x;
  }

  /** The pieces on either side of a separator. */
  lemma CutAround(a: string, c: char, t: string)
    ensures var s := a + [c] + t; |a| < |s| && s[|a|] == c && s[..|a|] == a && s[|a| + 1..] == t
  {
    var s := a + [c] + t;
    assert s[..|a|] == a;
    assert s[|a| + 1..] == t;
  }

  /** Searching past a prefix that does not hold `x`. */
  lemma FindPast<T>(a: seq<T>, b: seq<T>, x: T)
    requires x !in a
    ensures Find(a + b, x) == match Find(b, x) case None => None case Some(k) => Some(|a| + k)
  {
    match Find(b, x)
    case None =>
    case Some(k) =>
      assert (a + b)[..|a| + k] == a + b[..k];
      FindFirst(a + b, x, |a| + k);
  }

  /** A character absent from every piece and different from the separator is
      absent from the join. */
  lemma {:induction false} JoinAvoids(parts: seq<string>, c: char, x: char)
    requires |parts| >= 1 && x != c
    requires forall i :: 0 <= i < |parts| ==> x !in parts[i]
    ensures x !in Join(parts, c)
  {
    if |parts| > 1 {
      JoinAvoids(parts[1..], c, x);
    }
  }

  /** Solver helper: concatenation is associative. Called where the
      unaided proof runs out of resource. */
  lemma Assoc<T>(a: seq<T>, b: seq<T>, c: seq<T>)
    ensures (a + b) + c == a + (b + c)
  {
  }

  /** Solver helper: a non-empty sequence is its head followed by its
      tail. */
  lemma HeadTail<T>(s: seq<T>)
    requires s != []
    ensures [s[0]] + s[1..] == s
  {
  }

  /** The join starts with the first piece. */
  lemma JoinStart(parts: seq<string>, c: char)
    requires |parts| >= 1
    ensures Join(parts, c)[..|parts[0]|] == parts[0]
    ensures |parts| > 1 ==> Join(parts, c) == parts[0] + [c] + Join(parts[1..], c)
    ensures |parts| == 1 ==> Join(parts, c) == parts[0]
  {
  }
}
