/** The predicate language embedded in spec fields (`_extract_result`,
    `_call_func` and the helpers `_range` ... `_in` of the hardware matcher).

    An expression is either a call `name(arg, ...)` of a registered predicate
    or a literal text. A call receives the field value being matched as an implicit
    first argument, then its written arguments, each stripped of quote
    characters and itself evaluated as an expression. */
module Expr {
  import opened Outcomes
  import opened Text

  /** What evaluation produces: a string, or a bool returned by a predicate. */
  datatype Value = Str(s: string) | Bool(b: bool)

  /** Python truthiness of a value. */
  predicate Truthy(v: Value) {
    match v
    case Str(s) => s != ""
    case Bool(b) => b
  }

  /** The registered predicates. */
  datatype Pred = Range | Gt | Ge | Lt | Le | Not | And | Or | Network | Regexp | In

  /** The name a predicate is written with in an expression (its helper is this
      name with a leading underscore). */
  function Name(p: Pred): string {
    match p
    case Range => "range"
    case Gt => "gt"
    case Ge => "ge"
    case Lt => "lt"
    case Le => "le"
    case Not => "not"
    case And => "and"
    case Or => "or"
    case Network => "network"
    case Regexp => "regexp"
    case In => "in"
  }

  /** Resolution of a written name against the registry. */
  function Lookup(name: string): (r: Option<Pred>)
    ensures r.Some? ==> Name(r.value) == name
    ensures r.None? ==> forall p: Pred :: Name(p) != name
  {
    if name == "range" then Some(Range)
    else if name == "gt" then Some(Gt)
    else if name == "ge" then Some(Ge)
    else if name == "lt" then Some(Lt)
    else if name == "le" then Some(Le)
    else if name == "not" then Some(Not)
    else if name == "and" then Some(And)
    else if name == "or" then Some(Or)
    else if name == "network" then Some(Network)
    else if name == "regexp" then Some(Regexp)
    else if name == "in" then Some(In)
    else None
  }

  /** The two predicates that call into Python libraries: IPv4 network
      membership (`ipaddress`) and `re.search`. Both take the implicit value
      first; either may raise. */
  datatype Foreign = Foreign(
    network: (Value, Value) -> Result<bool>,
    regexp: (Value, Value) -> Result<bool>)

  // ---------------------------------------------------------------------------
  // Numbers: `float()` restricted to integer texts.

  predicate IsDigit(c: char) { '0' <= c <= '9' }

  predicate AllDigits(s: string) { forall i :: 0 <= i < |s| ==> IsDigit(s[i]) }

  /** Digits, possibly with `_` separators. */
  predicate DigitsOrSeps(s: string) { forall i :: 0 <= i < |s| ==> IsDigit(s[i]) || s[i] == '_' }

  /** The value of the digits of `s`, the separators skipped. */
  function DigitsValue(s: string): nat
    requires DigitsOrSeps(s)
  {
    if s == [] then 0
    else if s[|s| - 1] == '_' then DigitsValue(s[..|s| - 1])
    else DigitsValue(s[..|s| - 1]) * 10 + (s[|s| - 1] as int - '0' as int)
  }

  /** Digits in which each `_` stands between two digits, as Python's
      number syntax allows. */
  predicate Grouped(s: string) {
    s != [] && DigitsOrSeps(s) && forall i :: 0 <= i < |s| ==> SeparatedAt(s, i)
  }

  /** A `_` at position `i` stands between two digits. */
  predicate SeparatedAt(s: string, i: int) {
    0 <= i < |s| && s[i] == '_' ==> 0 < i < |s| - 1 && IsDigit(s[i - 1]) && IsDigit(s[i + 1])
  }

  /** The first position from `i` on that does not hold white space. */
  function SkipBlanks(s: string, i: nat): (j: nat)
    requires i <= |s|
    ensures i <= j <= |s| && (forall k :: i <= k < j ==> IsSpace(s[k])) && (j < |s| ==> !IsSpace(s[j]))
    decreases |s| - i
  {
    if i < |s| && IsSpace(s[i]) then SkipBlanks(s, i + 1) else i
  }

  /** The end of `s[i..j]` once its trailing white space is cut off. */
  function BackBlanks(s: string, i: nat, j: nat): (k: nat)
    requires i <= j <= |s|
    ensures i <= k <= j && (forall m :: k <= m < j ==> IsSpace(s[m])) && (k > i ==> !IsSpace(s[k - 1]))
    decreases j
  {
    if j > i && IsSpace(s[j - 1]) then BackBlanks(s, i, j - 1) else j
  }

  /** `s.strip()`: the text between the leading and the trailing white space. */
  function Trimmed(s: string): (r: string)
    ensures r == [] || (!IsSpace(r[0]) && !IsSpace(r[|r| - 1]))
    ensures var a := SkipBlanks(s, 0); var b := BackBlanks(s, a, |s|);
      r == s[a..b] && (forall k :: 0 <= k < a ==> IsSpace(s[k])) && (forall k :: b <= k < |s| ==> IsSpace(s[k]))
  {
    var a := SkipBlanks(s, 0);
    s[a..BackBlanks(s, a, |s|)]
  }

  /** A decimal integer without white space around it, as `float()` reads
      it: an optional sign, then digits with single `_` separators between
      them. */
  function ReadInteger(t: string): (r: Option<int>)
    ensures r.Some? <==> Grouped(t) || (|t| >= 2 && (t[0] == '-' || t[0] == '+') && Grouped(t[1..]))
  {
    if |t| >= 2 && (t[0] == '-' || t[0] == '+') && Grouped(t[1..]) then
      var n: int := DigitsValue(t[1..]);
      Some(if t[0] == '-' then -n else n)
    else if Grouped(t) then Some(DigitsValue(t))
    else None
  }

  /** `float(s)` on an integer text: the white space around it is ignored. */
  function ParseNumber(s: string): Option<int> {
    ReadInteger(Trimmed(s))
  }

  /** Every character of a number text is white space, a digit, a separator
      or a sign. */
  lemma NumberChars(s: string)
    requires ParseNumber(s).Some?
    ensures forall i :: 0 <= i < |s| ==> IsSpace(s[i]) || IsDigit(s[i]) || s[i] in "_+-"
  {
    var a := SkipBlanks(s, 0);
    var b := BackBlanks(s, a, |s|);
    var t := Trimmed(s);
    forall i | a <= i < b
      ensures IsDigit(s[i]) || s[i] in "_+-"
    {
      assert s[i] == t[i - a];
      if i > a {
        assert t[i - a] == t[1..][i - a - 1];
      }
    }
  }

  /** White space around a number text changes nothing: `float(" 5 ")` is
      `float("5")`. */
  lemma ParsePadded(w1: string, t: string, w2: string)
    requires forall i :: 0 <= i < |w1| ==> IsSpace(w1[i])
    requires forall i :: 0 <= i < |w2| ==> IsSpace(w2[i])
    requires t != [] && !IsSpace(t[0]) && !IsSpace(t[|t| - 1])
    ensures Trimmed(w1 + t + w2) == t && Trimmed(t) == t
    ensures ParseNumber(w1 + t + w2) == ParseNumber(t) == ReadInteger(t)
  {
    var s := w1 + t + w2;
    assert s[|w1|] == t[0] && s[|w1| + |t| - 1] == t[|t| - 1];
    var a := SkipBlanks(s, 0);
    assert a == |w1|;
    var b := BackBlanks(s, a, |s|);
    assert b == |w1| + |t|;
    assert s[a..b] == t;
    TrimmedNothing(t);
  }

  /** A text with no white space at either end is its own `strip()`. */
  lemma TrimmedNothing(t: string)
    requires t != [] && !IsSpace(t[0]) && !IsSpace(t[|t| - 1])
    ensures Trimmed(t) == t
  {
    assert SkipBlanks(t, 0) == 0;
    assert BackBlanks(t, 0, |t|) == |t|;
    assert t[0..|t|] == t;
  }

  /** Plain digits are a grouped digit text. */
  lemma AllDigitsGrouped(s: string)
    requires s != [] && AllDigits(s)
    ensures Grouped(s) && !IsSpace(s[0]) && !IsSpace(s[|s| - 1])
  {
  }

  /** A separator between two runs of digits is skipped in the value:
      `float("1_000")` is `float("1000")`. */
  lemma {:induction false} SeparatorSkipped(a: string, b: string)
    requires DigitsOrSeps(a) && DigitsOrSeps(b)
    ensures DigitsOrSeps(a + "_" + b) && DigitsValue(a + "_" + b) == DigitsValue(a + b)
    decreases |b|
  {
    var s := a + "_" + b;
    if b == [] {
      assert s[..|s| - 1] == a && a + b == a;
    } else {
      var c := b[..|b| - 1];
      SeparatorSkipped(a, c);
      assert s[..|s| - 1] == a + "_" + c;
      assert (a + b)[..|a + b| - 1] == a + c;
    }
  }

  /** Two digit runs joined by a separator are again a grouped digit text. */
  lemma SeparatorJoins(a: string, b: string)
    requires Grouped(a) && Grouped(b)
    ensures Grouped(a + "_" + b)
  {
    var s := a + "_" + b;
    forall i | 0 <= i < |s| && s[i] == '_'
      ensures SeparatedAt(s, i)
    {
      if i < |a| {
        assert SeparatedAt(a, i);
        assert s[i - 1] == a[i - 1] && s[i + 1] == a[i + 1];
      } else if i > |a| {
        assert s[i] == b[i - |a| - 1] && SeparatedAt(b, i - |a| - 1);
        assert s[i - 1] == b[i - |a| - 2] && s[i + 1] == b[i - |a|];
      } else {
        assert SeparatedAt(a, |a| - 1) && SeparatedAt(b, 0);
        assert s[i - 1] == a[|a| - 1] && s[i + 1] == b[0];
      }
    }
    assert forall i :: 0 <= i < |s| ==> SeparatedAt(s, i);
  }

  function ShowNat(n: nat): (r: string)
    ensures r != [] && AllDigits(r)
  {
    var d := ['0' + (n % 10) as char];
    if n < 10 then d else ShowNat(n / 10) + d
  }

  /** Decimal rendering of an integer. */
  function Show(n: int): string {
    if n < 0 then "-" + ShowNat(-n) else ShowNat(n)
  }

  lemma {:induction false} DigitsOfShowNat(n: nat)
    ensures DigitsValue(ShowNat(n)) == n
  {
    var s := ShowNat(n);
    if n >= 10 {
      DigitsOfShowNat(n / 10);
      assert s[..|s| - 1] == ShowNat(n / 10);
    }
  }

  /** Reading back a rendered integer gives the integer. */
  lemma ParseShow(n: int)
    ensures ParseNumber(Show(n)) == Some(n)
  {
    var s := Show(n);
    if n < 0 {
      var d := ShowNat(-n);
      DigitsOfShowNat(-n);
      AllDigitsGrouped(d);
      assert s[1..] == d && s[0] == '-';
      TrimmedNothing(s);
    } else {
      DigitsOfShowNat(n);
      AllDigitsGrouped(s);
      TrimmedNothing(s);
    }
  }

  /** `float(v)`: a bool counts as 0 or 1, a text must be a number. */
  function ToNumber(v: Value): (r: Result<int>)
    ensures v.Str? ==> (r.Ok? <==> ParseNumber(v.s).Some?)
    ensures r.Raise? ==> r.error == ValueError
  {
    match v
    case Bool(b) => Ok(if b then 1 else 0)
    case Str(s) =>
      match ParseNumber(s)
      case Some(n) => Ok(n)
      case None => Raise(ValueError)
  }

  // ---------------------------------------------------------------------------
  // Call syntax: `^([^(]+)\(\s*([^,]+)(?:\s*,\s*(.+))?\)$`.

  /** A recognised call: the name before the first `(` and the raw argument
      texts, the first written group followed by the pieces of the rest. */
  datatype Call = Call(name: string, args: seq<string>)

  /** `re.split("\s*,\s*", s)`: cut at every comma, dropping the white space
      on both sides of each comma. */
  function SplitArgs(s: string): (r: seq<string>)
    ensures |r| >= 1
    ensures forall i :: 0 <= i < |r| ==> |r[i]| <= |s|
  {
    var pieces := SplitOn(s, ',');
    seq(|pieces|, i requires 0 <= i < |pieces| =>
      var left := if i > 0 then DropWhile(pieces[i], IsSpace) else pieces[i];
      if i < |pieces| - 1 then DropWhileEnd(left, IsSpace) else left)
  }

  /** Length of the leading white space. */
  function Blanks(s: string): (n: nat)
    ensures n <= |s| && forall i :: 0 <= i < n ==> IsSpace(s[i])
  {
    |s| - |DropWhile(s, IsSpace)|
  }

  /** Position of the first comma at or after `w` (the length when none). */
  function CommaFrom(s: string, w: nat): (c: nat)
    requires w <= |s|
    ensures w <= c <= |s|
  {
    w + match Find(s[w..], ',') case Some(k) => k case None => |s| - w
  }

  /** Solver helper: prepending a text no longer than `n` to texts no longer
      than `n` keeps every text no longer than `n`. */
  lemma PrependBounded(first: string, rest: seq<string>, n: nat)
    requires |first| <= n && forall i :: 0 <= i < |rest| ==> |rest[i]| <= n
    ensures forall i :: 0 <= i < |[first] + rest| ==> |([first] + rest)[i]| <= n
  {
  }

  /** Matches `\s*([^,]+)(?:\s*,\s*(.+))?` against the text between the
      parentheses, with the regular-expression engine's greedy choices and
      backtracking: a first group made only of white space keeps one blank,
      and `.+` matches at least one character and no newline. The leading
      blanks hold no comma, so the first comma of the text is the first one
      at or after them. */
  function ParseInner(inner: string): (r: Option<seq<string>>)
    ensures r.Some? ==> |r.value| >= 1 && forall i :: 0 <= i < |r.value| ==> |r.value[i]| <= |inner|
  {
    match FirstGroup(inner)
    case None => None
    case Some((first, c)) =>
      if c == |inner| then Some([first])
      else match ParseRest(inner[c + 1..])
        case None => None
        case Some(rest) =>
          PrependBounded(first, rest, |inner|);
          Some([first] + rest)
  }

  /** The first group of `ParseInner` and the position of the comma after it
      (the length when there is none). */
  function FirstGroup(inner: string): (r: Option<(string, nat)>)
    ensures r.Some? ==> |r.value.0| <= |inner| && r.value.1 <= |inner|
  {
    var w := Blanks(inner);
    var c := CommaFrom(inner, w);
    if c == 0 then None else Some((inner[if c > w then w else w - 1..c], c))
  }

  /** The part after the first comma: `\s*(.+)` followed by `re.split`. */
  function ParseRest(after: string): (r: Option<seq<string>>)
    ensures r.Some? ==> |r.value| >= 1 && forall i :: 0 <= i < |r.value| ==> |r.value[i]| <= |after|
  {
    if after == [] then None
    else
      var t := DropWhile(after, IsSpace);
      var rest := if t != [] then t else after[|after| - 1..];
      if '\n' in rest then None else Some(SplitArgs(rest))
  }

  /** `_FUNC_REGEXP.search(e)`. The closing parenthesis is the last character,
      or the one before a final newline (where `$` also matches). */
  function ParseCall(e: string): (r: Option<Call>)
    ensures r.Some? ==> r.value.name != [] && '(' !in r.value.name && |r.value.args| >= 1
    ensures r.Some? ==> forall i :: 0 <= i < |r.value.args| ==> |r.value.args[i]| < |e|
  {
    match Find(e, '(')
    case None => None
    case Some(p) =>
      var q := if |e| >= 1 && e[|e| - 1] == ')' then |e| - 1
               else if |e| >= 2 && e[|e| - 1] == '\n' && e[|e| - 2] == ')' then |e| - 2
               else 0;
      if p == 0 || q <= p then None
      else match ParseInner(e[p + 1..q])
        case None => None
        case Some(args) => Some(Call(e[..p], args))
  }

  /** The text is a call of a registered predicate. */
  predicate IsRegisteredCall(t: string) {
    match ParseCall(t)
    case None => false
    case Some(call) => Lookup(call.name).Some?
  }

  // ---------------------------------------------------------------------------
  // The predicates.

  /** The number of arguments a predicate's helper accepts. */
  predicate ArityOk(p: Pred, n: nat) {
    match p
    case Range => n == 3
    case And => n == 3
    case Or => n == 3
    case In => n >= 1
    case _ => n == 2
  }

  /** Calling a predicate's helper on evaluated arguments. */
  function Apply(ext: Foreign, p: Pred, args: seq<Value>): (r: Result<Value>)
    ensures !ArityOk(p, |args|) ==> r == Raise(TypeError)
    ensures r.Ok? && p != And && p != Or ==> r.value.Bool?
    ensures r.Ok? && (p == And || p == Or) ==> r.value == args[1] || r.value == args[2]
  {
    if !ArityOk(p, |args|) then Raise(TypeError)
    else match p
      case Range =>
        // float(elt) >= float(minval) and float(elt) <= float(maxval)
        var v :- ToNumber(args[0]);
        var lo :- ToNumber(args[1]);
        if !(v >= lo) then Ok(Bool(false))
        else
          var hi :- ToNumber(args[2]);
          Ok(Bool(v <= hi))
      case Gt => var l :- ToNumber(args[0]); var r :- ToNumber(args[1]); Ok(Bool(l > r))
      case Ge => var l :- ToNumber(args[0]); var r :- ToNumber(args[1]); Ok(Bool(l >= r))
      case Lt => var l :- ToNumber(args[0]); var r :- ToNumber(args[1]); Ok(Bool(l < r))
      case Le => var l :- ToNumber(args[0]); var r :- ToNumber(args[1]); Ok(Bool(l <= r))
      case Not => Ok(Bool(!Truthy(args[1])))
      case And => Ok(if Truthy(args[1]) then args[2] else args[1])
      case Or => Ok(if Truthy(args[1]) then args[1] else args[2])
      case Network => var b :- ext.network(args[0], args[1]); Ok(Bool(b))
      case Regexp => var b :- ext.regexp(args[0], args[1]); Ok(Bool(b))
      case In => Ok(Bool(args[0] in args[1..]))
  }

  // ---------------------------------------------------------------------------
  // Evaluation.

  /** The implicit first argument: `_extract_result(implicit, implicit.strip(..))`.
      When the stripped field value is itself a registered call, evaluating it
      needs the implicit argument again, without end. */
  function ImplicitArg(imp: string): (r: Result<Value>)
    ensures r.Ok? <==> !IsRegisteredCall(StripQuotes(imp))
    ensures r.Ok? ==> r.value == Str(StripQuotes(imp))
  {
    var t := StripQuotes(imp);
    if IsRegisteredCall(t) then Raise(RecursionError) else Ok(Str(t))
  }

  /** `_extract_result(implicit, e)`. */
  function Extract(ext: Foreign, imp: string, e: string): (r: Result<Value>)
    ensures !IsRegisteredCall(e) ==> r == Ok(Str(e))
    ensures IsRegisteredCall(e) && IsRegisteredCall(StripQuotes(imp)) ==> r == Raise(RecursionError)
    ensures IsRegisteredCall(e) && r.Ok? && r.value.Str? ==>
      Lookup(ParseCall(e).value.name) in {Some(And), Some(Or)}
    decreases |e|, 2, 0
  {
    match ParseCall(e)
    case None => Ok(Str(e))
    case Some(call) =>
      match Lookup(call.name)
      case None => Ok(Str(e))
      case Some(p) => CallFunc(ext, p, imp, call.args, |e|)
  }

  /** `_call_func(func, implicit, res)`: the implicit value, then the written
      arguments, each quote-stripped and evaluated, passed to the helper. */
  function CallFunc(ext: Foreign, p: Pred, imp: string, args: seq<string>, ghost bound: nat): (r: Result<Value>)
    requires forall i :: 0 <= i < |args| ==> |args[i]| < bound
    ensures IsRegisteredCall(StripQuotes(imp)) ==> r == Raise(RecursionError)
    ensures r.Ok? && p != And && p != Or ==> r.value.Bool?
    decreases bound, 1, 0
  {
    var a0 :- ImplicitArg(imp);
    var vs :- EvalArgs(ext, imp, args, bound);
    Apply(ext, p, [a0] + vs)
  }

  /** The written arguments evaluated left to right; the first exception wins. */
  function EvalArgs(ext: Foreign, imp: string, args: seq<string>, ghost bound: nat): (r: Result<seq<Value>>)
    requires forall i :: 0 <= i < |args| ==> |args[i]| < bound
    ensures r.Ok? ==> |r.value| == |args|
    decreases bound, 0, |args|
  {
    if args == [] then Ok([])
    else
      var v :- Extract(ext, imp, StripQuotes(args[0]));
      var vs :- EvalArgs(ext, imp, args[1..], bound);
      Ok([v] + vs)
  }

  // ---------------------------------------------------------------------------
  // Laws of the evaluator.

  /** An argument text the call syntax carries through unchanged: not empty, no
      comma, no newline and no white space at either end. */
  predicate SimpleArg(a: string) {
    a != [] && ',' !in a && '\n' !in a && !IsSpace(a[0]) && !IsSpace(a[|a| - 1])
  }

  /** `name(a1,a2,...)`. */
  function Render(name: string, args: seq<string>): string
    requires |args| >= 1
  {
    name + "(" + Join(args, ',') + ")"
  }

  /** Solver helper: a text whose ends fail `p` loses nothing to
      `DropWhile` or `DropWhileEnd`. */
  lemma DropNothing(s: string, p: char -> bool)
    requires s != [] && !p(s[0]) && !p(s[|s| - 1])
    ensures DropWhile(s, p) == s && DropWhileEnd(s, p) == s
  {
  }

  /** The parenthesis after a name without one opens the call; the closing
      one is the last character. */
  lemma ParseCallShape(name: string, inner: string)
    requires name != [] && '(' !in name
    ensures ParseCall(name + "(" + inner + ")") ==
      match ParseInner(inner) case None => None case Some(a) => Some(Call(name, a))
  {
    CallText(name, inner);
  }

  /** Where the name, the parentheses and the inner text of a call text lie. */
  lemma CallText(name: string, inner: string)
    requires '(' !in name
    ensures var e := name + "(" + inner + ")";
      && Find(e, '(') == Some(|name|) && e[|e| - 1] == ')'
      && e[..|name|] == name && e[|name| + 1..|e| - 1] == inner
  {
    var e := name + "(" + inner + ")";
    FindPast(name, "(" + inner + ")", '(');
    assert e == name + ("(" + inner + ")");
  }

  /** A single simple argument is the whole first group. */
  lemma ParseInnerOne(a: string)
    requires SimpleArg(a)
    ensures ParseInner(a) == Some([a])
  {
    assert Blanks(a) == 0;
    assert a[0..] == a;
    assert Find(a, ',') == None;
    assert CommaFrom(a, 0) == |a|;
    assert a[0..|a|] == a;
  }

  /** The `\s*` before the first group skips all leading white space, so the
      argument after it is read without it. */
  lemma ParseInnerPadded(w: string, a: string)
    requires forall i :: 0 <= i < |w| ==> IsSpace(w[i])
    requires SimpleArg(a)
    ensures ParseInner(w + a) == Some([a])
  {
    FirstGroupPadded(w, a);
  }

  /** The first group after leading white space is the comma-free rest. */
  lemma FirstGroupPadded(w: string, a: string)
    requires forall i :: 0 <= i < |w| ==> IsSpace(w[i])
    requires SimpleArg(a)
    ensures FirstGroup(w + a) == Some((a, |w + a|))
  {
    var s := w + a;
    BlanksPadded(w, a);
    assert s[|w|..] == a;
    assert Find(a, ',') == None;
    assert CommaFrom(s, |w|) == |s|;
    assert s[|w|..|s|] == a;
  }

  /** The leading white space of `w + a` is `w` when `a` starts otherwise. */
  lemma BlanksPadded(w: string, a: string)
    requires forall i :: 0 <= i < |w| ==> IsSpace(w[i])
    requires a != [] && !IsSpace(a[0])
    ensures Blanks(w + a) == |w|
  {
    DropLeading(w, a, IsSpace);
  }

  /** Simple arguments after the first come back from `re.split`. */
  lemma SplitArgsJoin(args: seq<string>)
    requires |args| >= 1 && forall i :: 0 <= i < |args| ==> SimpleArg(args[i])
    ensures SplitArgs(Join(args, ',')) == args
  {
    var s := Join(args, ',');
    SplitJoin(args, ',');
    SplitArgsLength(s);
    forall i | 0 <= i < |args|
      ensures SplitArgs(s)[i] == args[i]
    {
      SplitArgsPiece(s, i);
    }
  }

  /** `re.split` gives one piece per comma-separated part. */
  lemma SplitArgsLength(s: string)
    ensures |SplitArgs(s)| == |SplitOn(s, ',')|
  {
  }

  /** A part without white space at either end comes back unchanged. */
  lemma SplitArgsPiece(s: string, i: nat)
    requires i < |SplitOn(s, ',')|
    requires var piece := SplitOn(s, ',')[i]; piece != [] && !IsSpace(piece[0]) && !IsSpace(piece[|piece| - 1])
    ensures i < |SplitArgs(s)| && SplitArgs(s)[i] == SplitOn(s, ',')[i]
  {
    var pieces := SplitOn(s, ',');
    DropNothing(pieces[i], IsSpace);
    assert SplitArgs(s)[i] ==
      var left := if i > 0 then DropWhile(pieces[i], IsSpace) else pieces[i];
      if i < |pieces| - 1 then DropWhileEnd(left, IsSpace) else left;
  }

  /** The arguments after the first comma come back from `\s*(.+)` and
      `re.split`. */
  lemma ParseRestJoin(args: seq<string>)
    requires |args| >= 1 && forall i :: 0 <= i < |args| ==> SimpleArg(args[i])
    ensures ParseRest(Join(args, ',')) == Some(args)
  {
    var tail := Join(args, ',');
    JoinStart(args, ',');
    assert tail[0] == args[0][0];
    assert DropWhile(tail, IsSpace) == tail;
    JoinAvoids(args, ',', '\n');
    SplitArgsJoin(args);
  }

  /** A text that starts with a non-blank has no leading white space. */
  lemma BlanksNone(s: string)
    requires s != [] && !IsSpace(s[0])
    ensures Blanks(s) == 0
  {
  }

  /** The first comma of `a + "," + t` when `a` holds none. */
  lemma CommaAt(a: string, t: string)
    requires ',' !in a
    ensures CommaFrom(a + [','] + t, 0) == |a|
  {
    var j := a + [','] + t;
    assert j[0..] == a + ([','] + t);
    FindPast(a, [','] + t, ',');
  }

  /** A simple first argument followed by a comma: the first group is that
      argument and the rest is what `ParseRest` reads after the comma. */
  lemma ParseInnerComma(a: string, t: string, rest: seq<string>)
    requires SimpleArg(a) && ParseRest(t) == Some(rest)
    ensures ParseInner(a + [','] + t) == Some([a] + rest)
  {
    var j := a + [','] + t;
    BlanksNone(j);
    CommaAt(a, t);
    assert j[0..|a|] == a;
    assert j[|a| + 1..] == t;
  }

  /** Several simple arguments: the first group, then the split remainder. */
  lemma ParseInnerMany(args: seq<string>)
    requires |args| >= 2 && forall i :: 0 <= i < |args| ==> SimpleArg(args[i])
    ensures ParseInner(Join(args, ',')) == Some(args)
  {
    HeadTail(args);
    var tail := Join(args[1..], ',');
    ParseRestJoin(args[1..]);
    JoinStart(args, ',');
    ParseInnerComma(args[0], tail, args[1..]);
  }

  /** Simple arguments joined by commas are read back as written. */
  lemma ParseInnerJoin(args: seq<string>)
    requires |args| >= 1 && forall i :: 0 <= i < |args| ==> SimpleArg(args[i])
    ensures ParseInner(Join(args, ',')) == Some(args)
  {
    if |args| == 1 {
      assert Join(args, ',') == args[0];
      ParseInnerOne(args[0]);
      assert [args[0]] == args;
    } else {
      ParseInnerMany(args);
    }
  }

  /** Recognising a rendered call gives back its name and arguments. */
  lemma ParseRender(name: string, args: seq<string>)
    requires name != [] && '(' !in name && |args| >= 1
    requires forall i :: 0 <= i < |args| ==> SimpleArg(args[i])
    ensures ParseCall(Render(name, args)) == Some(Call(name, args))
  {
    var j := Join(args, ',');
    assert Render(name, args) == name + "(" + j + ")";
    ParseCallShape(name, j);
    ParseInnerJoin(args);
  }

  /** Every predicate is found under its own name. */
  lemma LookupName(p: Pred)
    ensures Lookup(Name(p)) == Some(p)
  {
  }

  /** Evaluating a rendered call of a registered predicate calls it on the
      implicit value followed by the quote-stripped, evaluated arguments. */
  lemma EvalRendered(ext: Foreign, imp: string, p: Pred, args: seq<string>)
    requires |args| >= 1 && forall i :: 0 <= i < |args| ==> SimpleArg(args[i])
    ensures ParseCall(Render(Name(p), args)) == Some(Call(Name(p), args))
    ensures Extract(ext, imp, Render(Name(p), args)) ==
      CallFunc(ext, p, imp, args, |Render(Name(p), args)|)
  {
    ParseRender(Name(p), args);
    LookupName(p);
  }

  /** A text without a parenthesis is a literal. */
  lemma NoParenIsLiteral(ext: Foreign, imp: string, e: string)
    requires '(' !in e
    ensures !IsRegisteredCall(e) && Extract(ext, imp, e) == Ok(Str(e))
  {
    assert Find(e, '(') == None;
  }

  /** The evaluated arguments depend only on the quote-stripped texts. */
  lemma {:induction false} EvalArgsStripped(ext: Foreign, imp: string, xs: seq<string>, ys: seq<string>, b1: nat, b2: nat)
    requires |xs| == |ys|
    requires forall i :: 0 <= i < |xs| ==> |xs[i]| < b1 && |ys[i]| < b2
    requires forall i :: 0 <= i < |xs| ==> StripQuotes(xs[i]) == StripQuotes(ys[i])
    ensures EvalArgs(ext, imp, xs, b1) == EvalArgs(ext, imp, ys, b2)
  {
    if xs != [] {
      StrippedTails(xs, ys, b1, b2);
      EvalArgsStripped(ext, imp, xs[1..], ys[1..], b1, b2);
      EvalCons(ext, imp, xs, b1);
      EvalCons(ext, imp, ys, b2);
    } else {
      EvalNil(ext, imp, xs, b1);
      EvalNil(ext, imp, ys, b2);
    }
  }

  /** The tails of two argument lists that agree once stripped agree too. */
  lemma StrippedTails(xs: seq<string>, ys: seq<string>, b1: nat, b2: nat)
    requires xs != [] && |xs| == |ys|
    requires forall i :: 0 <= i < |xs| ==> |xs[i]| < b1 && |ys[i]| < b2
    requires forall i :: 0 <= i < |xs| ==> StripQuotes(xs[i]) == StripQuotes(ys[i])
    ensures StripQuotes(xs[0]) == StripQuotes(ys[0])
    ensures |xs[1..]| == |ys[1..]|
    ensures forall i :: 0 <= i < |xs[1..]| ==> |xs[1..][i]| < b1 && |ys[1..][i]| < b2
    ensures forall i :: 0 <= i < |xs[1..]| ==> StripQuotes(xs[1..][i]) == StripQuotes(ys[1..][i])
  {
  }

  /** The result of the argument loop from the first value and the rest's. */
  function ConsResult(h: Result<Value>, t: Result<seq<Value>>): Result<seq<Value>> {
    match h
    case Raise(x) => Raise(x)
    case Ok(v) =>
      match t
      case Raise(x) => Raise(x)
      case Ok(vs) => Ok([v] + vs)
  }

  /** One step of the argument loop: the first argument, then the rest. */
  lemma EvalCons(ext: Foreign, imp: string, args: seq<string>, bound: nat)
    requires args != [] && forall i :: 0 <= i < |args| ==> |args[i]| < bound
    ensures EvalArgs(ext, imp, args, bound) ==
      ConsResult(Extract(ext, imp, StripQuotes(args[0])), EvalArgs(ext, imp, args[1..], bound))
    ensures forall i :: 0 <= i < |args[1..]| ==> |args[1..][i]| < bound
  {
  }

  lemma EvalOne(ext: Foreign, imp: string, args: seq<string>, bound: nat)
    requires |args| == 1 && forall i :: 0 <= i < |args| ==> |args[i]| < bound
    ensures EvalArgs(ext, imp, args, bound) ==
      match Extract(ext, imp, StripQuotes(args[0])) case Ok(v) => Ok([v]) case Raise(x) => Raise(x)
  {
    EvalCons(ext, imp, args, bound);
    EvalNil(ext, imp, args[1..], bound);
    var ra := Extract(ext, imp, StripQuotes(args[0]));
    if ra.Ok? {
      assert [ra.value] + [] == [ra.value];
    }
  }

  /** No arguments evaluate to no values. */
  lemma EvalNil(ext: Foreign, imp: string, args: seq<string>, bound: nat)
    requires |args| == 0
    ensures EvalArgs(ext, imp, args, bound) == Ok([])
  {
  }

  lemma EvalTwo(ext: Foreign, imp: string, args: seq<string>, bound: nat)
    requires |args| == 2 && forall i :: 0 <= i < |args| ==> |args[i]| < bound
    ensures var ra := Extract(ext, imp, StripQuotes(args[0]));
      var rb := Extract(ext, imp, StripQuotes(args[1]));
      EvalArgs(ext, imp, args, bound) ==
        if ra.Raise? then Raise(ra.error)
        else if rb.Raise? then Raise(rb.error)
        else Ok([ra.value, rb.value])
  {
    EvalCons(ext, imp, args, bound);
    assert args[1..][0] == args[1];
    EvalOne(ext, imp, args[1..], bound);
    var ra := Extract(ext, imp, StripQuotes(args[0]));
    var rb := Extract(ext, imp, StripQuotes(args[1]));
    if ra.Ok? && rb.Ok? {
      assert [ra.value] + [rb.value] == [ra.value, rb.value];
    }
  }

  /** A call with a plain implicit value applies the predicate to that value
      and the evaluated arguments. */
  lemma CallPlain(ext: Foreign, p: Pred, imp: string, args: seq<string>, bound: nat)
    requires forall i :: 0 <= i < |args| ==> |args[i]| < bound
    requires !IsRegisteredCall(StripQuotes(imp))
    ensures EvalArgs(ext, imp, args, bound).Raise? ==>
      CallFunc(ext, p, imp, args, bound) == Raise(EvalArgs(ext, imp, args, bound).error)
    ensures EvalArgs(ext, imp, args, bound).Ok? ==>
      CallFunc(ext, p, imp, args, bound) ==
      Apply(ext, p, [Str(StripQuotes(imp))] + EvalArgs(ext, imp, args, bound).value)
  {
  }

  /** A rendered call of a registered predicate, with a plain implicit value,
      applies the predicate to that value and the evaluated arguments. */
  lemma EvalCall(ext: Foreign, imp: string, p: Pred, args: seq<string>)
    requires |args| >= 1 && forall i :: 0 <= i < |args| ==> SimpleArg(args[i])
    requires !IsRegisteredCall(StripQuotes(imp))
    ensures ParseCall(Render(Name(p), args)) == Some(Call(Name(p), args))
    ensures var vs := EvalArgs(ext, imp, args, |Render(Name(p), args)|);
      Extract(ext, imp, Render(Name(p), args)) ==
        if vs.Raise? then Raise(vs.error) else Apply(ext, p, [Str(StripQuotes(imp))] + vs.value)
  {
    EvalRendered(ext, imp, p, args);
    CallPlain(ext, p, imp, args, |Render(Name(p), args)|);
  }

  lemma ApplyNot(ext: Foreign, x: Value, v: Value)
    ensures Apply(ext, Not, [x, v]) == Ok(Bool(!Truthy(v)))
  {
  }

  lemma ApplyAnd(ext: Foreign, x: Value, a: Value, b: Value)
    ensures Apply(ext, And, [x, a, b]) == Ok(if Truthy(a) then b else a)
  {
  }

  lemma ApplyOr(ext: Foreign, x: Value, a: Value, b: Value)
    ensures Apply(ext, Or, [x, a, b]) == Ok(if Truthy(a) then a else b)
  {
  }

  /** `_in` tests whether the implicit value equals one of the other arguments. */
  lemma ApplyIn(ext: Foreign, x: Value, vs: seq<Value>)
    ensures Apply(ext, In, [x] + vs) == Ok(Bool(x in vs))
  {
    assert ([x] + vs)[1..] == vs;
  }

  /** `network` gives back what the library says of the implicit value and the
      network, and its exception when it raises one. */
  lemma ApplyNetwork(ext: Foreign, x: Value, net: Value)
    ensures ext.network(x, net).Ok? ==> Apply(ext, Network, [x, net]) == Ok(Bool(ext.network(x, net).value))
    ensures ext.network(x, net).Raise? ==> Apply(ext, Network, [x, net]) == Raise(ext.network(x, net).error)
  {
  }

  /** `regexp` gives back what `re.search` says of the pattern in the implicit
      value, and its exception when it raises one. */
  lemma ApplyRegexp(ext: Foreign, x: Value, pattern: Value)
    ensures ext.regexp(x, pattern).Ok? ==> Apply(ext, Regexp, [x, pattern]) == Ok(Bool(ext.regexp(x, pattern).value))
    ensures ext.regexp(x, pattern).Raise? ==> Apply(ext, Regexp, [x, pattern]) == Raise(ext.regexp(x, pattern).error)
  {
  }

  /** `_call_func` on one written argument. */
  lemma CallFuncOne(ext: Foreign, p: Pred, imp: string, args: seq<string>, bound: nat)
    requires |args| == 1 && forall i :: 0 <= i < |args| ==> |args[i]| < bound
    requires !IsRegisteredCall(StripQuotes(imp))
    ensures var ra := Extract(ext, imp, StripQuotes(args[0]));
      CallFunc(ext, p, imp, args, bound) ==
        if ra.Raise? then Raise(ra.error) else Apply(ext, p, [Str(StripQuotes(imp)), ra.value])
  {
    CallPlain(ext, p, imp, args, bound);
    EvalOne(ext, imp, args, bound);
    var ra := Extract(ext, imp, StripQuotes(args[0]));
    if ra.Ok? {
      assert [Str(StripQuotes(imp))] + [ra.value] == [Str(StripQuotes(imp)), ra.value];
    }
  }

  /** A rendered one-argument call evaluates its (quote-stripped) argument and
      applies the predicate to the implicit value and it. */
  lemma EvalUnary(ext: Foreign, imp: string, p: Pred, a: string)
    requires SimpleArg(a)
    requires !IsRegisteredCall(StripQuotes(imp))
    ensures var ra := Extract(ext, imp, StripQuotes(a));
      Extract(ext, imp, Render(Name(p), [a])) ==
        if ra.Raise? then Raise(ra.error) else Apply(ext, p, [Str(StripQuotes(imp)), ra.value])
  {
    EvalRendered(ext, imp, p, [a]);
    assert [a][0] == a;
    CallFuncOne(ext, p, imp, [a], |Render(Name(p), [a])|);
  }

  /** `not(e)` negates the truthiness of `e`. */
  lemma NotNegates(ext: Foreign, imp: string, e: string)
    requires SimpleArg(e) && StripQuotes(e) == e
    requires !IsRegisteredCall(StripQuotes(imp))
    ensures Extract(ext, imp, Render(Name(Not), [e])) ==
      match Extract(ext, imp, e)
      case Ok(v) => Ok(Bool(!Truthy(v)))
      case Raise(x) => Raise(x)
  {
    EvalUnary(ext, imp, Not, e);
    var r := Extract(ext, imp, e);
    if r.Ok? {
      ApplyNot(ext, Str(StripQuotes(imp)), r.value);
    }
  }

  /** `_call_func` on two written arguments. */
  lemma CallFuncTwo(ext: Foreign, p: Pred, imp: string, args: seq<string>, bound: nat)
    requires |args| == 2 && forall i :: 0 <= i < |args| ==> |args[i]| < bound
    requires !IsRegisteredCall(StripQuotes(imp))
    ensures var ra := Extract(ext, imp, StripQuotes(args[0]));
      var rb := Extract(ext, imp, StripQuotes(args[1]));
      CallFunc(ext, p, imp, args, bound) ==
        if ra.Raise? then Raise(ra.error)
        else if rb.Raise? then Raise(rb.error)
        else Apply(ext, p, [Str(StripQuotes(imp)), ra.value, rb.value])
  {
    CallPlain(ext, p, imp, args, bound);
    EvalTwo(ext, imp, args, bound);
    var ra := Extract(ext, imp, StripQuotes(args[0]));
    var rb := Extract(ext, imp, StripQuotes(args[1]));
    if ra.Ok? && rb.Ok? {
      assert [Str(StripQuotes(imp))] + [ra.value, rb.value] == [Str(StripQuotes(imp)), ra.value, rb.value];
    }
  }

  /** A rendered two-argument call evaluates both (quote-stripped) arguments
      in order and applies the predicate to the implicit value and them. */
  lemma EvalBinary(ext: Foreign, imp: string, p: Pred, a: string, b: string)
    requires SimpleArg(a) && SimpleArg(b)
    requires !IsRegisteredCall(StripQuotes(imp))
    ensures var ra := Extract(ext, imp, StripQuotes(a));
      var rb := Extract(ext, imp, StripQuotes(b));
      Extract(ext, imp, Render(Name(p), [a, b])) ==
        if ra.Raise? then Raise(ra.error)
        else if rb.Raise? then Raise(rb.error)
        else Apply(ext, p, [Str(StripQuotes(imp)), ra.value, rb.value])
  {
    var args := [a, b];
    EvalRendered(ext, imp, p, args);
    CallFuncTwo(ext, p, imp, args, |Render(Name(p), args)|);
  }

  /** `and(a,b)` evaluates both operands, then yields the second when the
      first is truthy and the first otherwise. */
  lemma AndOperands(ext: Foreign, imp: string, a: string, b: string)
    requires SimpleArg(a) && StripQuotes(a) == a && SimpleArg(b) && StripQuotes(b) == b
    requires !IsRegisteredCall(StripQuotes(imp))
    ensures Extract(ext, imp, Render(Name(And), [a, b])) ==
      match Extract(ext, imp, a)
      case Raise(x) => Raise(x)
      case Ok(va) =>
        match Extract(ext, imp, b)
        case Raise(y) => Raise(y)
        case Ok(vb) => Ok(if Truthy(va) then vb else va)
  {
    EvalBinary(ext, imp, And, a, b);
    var ra := Extract(ext, imp, a);
    var rb := Extract(ext, imp, b);
    if ra.Ok? && rb.Ok? {
      ApplyAnd(ext, Str(StripQuotes(imp)), ra.value, rb.value);
    }
  }

  /** `or(a,b)` evaluates both operands, then yields the first when it is
      truthy and the second otherwise. */
  lemma OrOperands(ext: Foreign, imp: string, a: string, b: string)
    requires SimpleArg(a) && StripQuotes(a) == a && SimpleArg(b) && StripQuotes(b) == b
    requires !IsRegisteredCall(StripQuotes(imp))
    ensures Extract(ext, imp, Render(Name(Or), [a, b])) ==
      match Extract(ext, imp, a)
      case Raise(x) => Raise(x)
      case Ok(va) =>
        match Extract(ext, imp, b)
        case Raise(y) => Raise(y)
        case Ok(vb) => Ok(if Truthy(va) then va else vb)
  {
    EvalBinary(ext, imp, Or, a, b);
    var ra := Extract(ext, imp, a);
    var rb := Extract(ext, imp, b);
    if ra.Ok? && rb.Ok? {
      ApplyOr(ext, Str(StripQuotes(imp)), ra.value, rb.value);
    }
  }

  lemma ShowIsSimple(n: int)
    ensures SimpleArg(Show(n)) && StripQuotes(Show(n)) == Show(n) && '(' !in Show(n)
  {
    var s := Show(n);
    assert forall i :: 0 <= i < |s| ==> IsDigit(s[i]) || s[i] == '-';
    DropNothing(s, IsQuote);
  }

  /** A number text holds no parenthesis, so it is a literal. */
  lemma NumberIsLiteral(ext: Foreign, imp: string, t: string, v: int)
    requires ParseNumber(t) == Some(v)
    ensures !IsRegisteredCall(t) && Extract(ext, imp, t) == Ok(Str(t))
  {
    NumberChars(t);
    assert forall i :: 0 <= i < |t| ==> t[i] != '(';
    NoParenIsLiteral(ext, imp, t);
  }

  /** The comparison of the (numeric) field value with a written bound:
      `gt(n)`, `ge(n)`, `lt(n)` and `le(n)`. */
  function Compare(p: Pred, v: int, n: int): bool
    requires p in {Gt, Ge, Lt, Le}
  {
    match p
    case Gt => v > n
    case Ge => v >= n
    case Lt => v < n
    case Le => v <= n
  }

  lemma ApplyCompare(ext: Foreign, p: Pred, t: string, u: string, v: int, n: int)
    requires p in {Gt, Ge, Lt, Le}
    requires ParseNumber(t) == Some(v) && ParseNumber(u) == Some(n)
    ensures Apply(ext, p, [Str(t), Str(u)]) == Ok(Bool(Compare(p, v, n)))
  {
  }

  lemma ApplyRange(ext: Foreign, t: string, l: string, h: string, v: int, lo: int, hi: int)
    requires ParseNumber(t) == Some(v) && ParseNumber(l) == Some(lo) && ParseNumber(h) == Some(hi)
    ensures Apply(ext, Range, [Str(t), Str(l), Str(h)]) == Ok(Bool(lo <= v <= hi))
  {
  }

  /** A comparison compares the implicit field value with its argument. */
  lemma CompareImplicit(ext: Foreign, imp: string, p: Pred, n: int, v: int)
    requires p in {Gt, Ge, Lt, Le}
    requires ParseNumber(StripQuotes(imp)) == Some(v)
    ensures Extract(ext, imp, Render(Name(p), [Show(n)])) == Ok(Bool(Compare(p, v, n)))
  {
    var t := StripQuotes(imp);
    NumberIsLiteral(ext, imp, t, v);
    ShowIsSimple(n);
    ParseShow(n);
    NumberIsLiteral(ext, imp, Show(n), n);
    EvalUnary(ext, imp, p, Show(n));
    ApplyCompare(ext, p, t, Show(n), v, n);
  }

  /** `range(lo,hi)` holds exactly when the field value lies between the bounds,
      both included. */
  lemma RangeImplicit(ext: Foreign, imp: string, lo: int, hi: int, v: int)
    requires ParseNumber(StripQuotes(imp)) == Some(v)
    ensures Extract(ext, imp, Render(Name(Range), [Show(lo), Show(hi)])) == Ok(Bool(lo <= v <= hi))
  {
    var t := StripQuotes(imp);
    NumberIsLiteral(ext, imp, t, v);
    ShowIsSimple(lo);
    ShowIsSimple(hi);
    ParseShow(lo);
    ParseShow(hi);
    NumberIsLiteral(ext, imp, Show(lo), lo);
    NumberIsLiteral(ext, imp, Show(hi), hi);
    EvalBinary(ext, imp, Range, Show(lo), Show(hi));
    ApplyRange(ext, t, Show(lo), Show(hi), v, lo, hi);
  }

  /** Two calls of a predicate whose written arguments evaluate alike give the
      same value. */
  lemma CallFuncArgs(ext: Foreign, p: Pred, imp: string, xs: seq<string>, ys: seq<string>, b1: nat, b2: nat)
    requires forall i :: 0 <= i < |xs| ==> |xs[i]| < b1
    requires forall i :: 0 <= i < |ys| ==> |ys[i]| < b2
    requires EvalArgs(ext, imp, xs, b1) == EvalArgs(ext, imp, ys, b2)
    ensures CallFunc(ext, p, imp, xs, b1) == CallFunc(ext, p, imp, ys, b2)
  {
  }

  /** Each argument wrapped in single quotes. */
  function Quoted(args: seq<string>): (r: seq<string>)
    ensures |r| == |args| && forall i :: 0 <= i < |args| ==> r[i] == "'" + args[i] + "'"
  {
    seq(|args|, i requires 0 <= i < |args| => "'" + args[i] + "'")
  }

  lemma StripWrapped(a: string)
    requires a != [] && !IsQuote(a[0]) && !IsQuote(a[|a| - 1])
    ensures StripQuotes("'" + a + "'") == a
  {
    var q := "'" + a + "'";
    var t := a + "'";
    assert q[1..] == t;
    assert DropWhile(t, IsQuote) == t;
    assert DropWhile(q, IsQuote) == t;
    assert t[..|a|] == a;
    DropNothing(a, IsQuote);
    assert DropWhileEnd(t, IsQuote) == a;
  }

  lemma SimpleWrapped(a: string)
    requires SimpleArg(a)
    ensures SimpleArg("'" + a + "'")
  {
    var q := "'" + a + "'";
    assert forall i :: 0 <= i < |q| ==> q[i] == '\'' || q[i] in a;
  }

  /** A quoted simple argument is still simple and strips back to itself. */
  lemma QuotedArg(a: string)
    requires SimpleArg(a) && StripQuotes(a) == a
    ensures SimpleArg("'" + a + "'") && StripQuotes("'" + a + "'") == a
  {
    StripWrapped(a);
    SimpleWrapped(a);
  }

  /** Each argument of a rendered call is shorter than the call text. */
  lemma RenderShorter(p: Pred, args: seq<string>)
    requires |args| >= 1 && forall i :: 0 <= i < |args| ==> SimpleArg(args[i])
    ensures forall i :: 0 <= i < |args| ==> |args[i]| < |Render(Name(p), args)|
  {
    ParseRender(Name(p), args);
    assert ParseCall(Render(Name(p), args)).value.args == args;
  }

  /** Quoted simple arguments evaluate as the bare ones. */
  lemma QuotedEvalArgs(ext: Foreign, imp: string, args: seq<string>, b1: nat, b2: nat)
    requires forall i :: 0 <= i < |args| ==> SimpleArg(args[i]) && StripQuotes(args[i]) == args[i]
    requires forall i :: 0 <= i < |args| ==> |Quoted(args)[i]| < b1 && |args[i]| < b2
    ensures EvalArgs(ext, imp, Quoted(args), b1) == EvalArgs(ext, imp, args, b2)
  {
    var quoted := Quoted(args);
    forall i | 0 <= i < |args|
      ensures StripQuotes(quoted[i]) == StripQuotes(args[i])
    {
      QuotedArg(args[i]);
    }
    EvalArgsStripped(ext, imp, quoted, args, b1, b2);
  }

  /** Quoting the arguments of a call does not change its value. */
  lemma QuotesAreTransparent(ext: Foreign, imp: string, p: Pred, args: seq<string>)
    requires |args| >= 1
    requires forall i :: 0 <= i < |args| ==> SimpleArg(args[i]) && StripQuotes(args[i]) == args[i]
    ensures Extract(ext, imp, Render(Name(p), Quoted(args))) == Extract(ext, imp, Render(Name(p), args))
  {
    var quoted := Quoted(args);
    forall i | 0 <= i < |args|
      ensures SimpleArg(quoted[i])
    {
      QuotedArg(args[i]);
    }
    var b1 := |Render(Name(p), quoted)|;
    var b2 := |Render(Name(p), args)|;
    EvalRendered(ext, imp, p, quoted);
    EvalRendered(ext, imp, p, args);
    RenderShorter(p, quoted);
    RenderShorter(p, args);
    QuotedEvalArgs(ext, imp, args, b1, b2);
    CallFuncArgs(ext, p, imp, quoted, args, b1, b2);
  }
}
