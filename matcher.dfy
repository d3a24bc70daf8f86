/** The single-spec matcher `match_spec` with its two binding modes
    (`_adder` and `_appender`), and the multi-match loop `match_multiple`.

    A line and a spec are both 4-tuples of texts. A spec field is a literal,
    a variable `$name`, a guarded variable `$name=expr` or a predicate
    expression `expr`. */
module Matcher {
  import opened Outcomes
  import opened Text
  import opened Expr

  /** A 4-tuple of texts: a line of the hardware description, or a spec. */
  type Fields = t: seq<string> | |t| == 4 witness ["", "", "", ""]

  /** What a variable holds: one text (`_adder`) or a list of texts (`_appender`). */
  datatype Binding = Scalar(s: string) | List(items: seq<string>)

  /** The variable dictionary `arr`. */
  type Vars = map<string, Binding>

  /** The `adder` argument: `_adder` overwrites, `_appender` accumulates. */
  datatype Mode = Overwrite | Append

  /** The outcome of checking one field of a line against one spec field. */
  datatype Verdict = Reject | Pass | Bind(key: string)

  /** A held-back binding: the variable and the line's field value. */
  datatype Assign = Assign(key: string, value: string)

  // ---------------------------------------------------------------------------
  // One field.

  /** `var` and `func` of a spec field: a field starting with `$` that holds
      exactly one `=` is split there, every other field is both. */
  function Decompose(sf: string): (r: (string, string))
    requires sf != []
    ensures r.0 != [] && (sf[0] == '$' ==> r.0[0] == '$')
    ensures sf[0] != '$' || |SplitOn(sf, '=')| != 2 ==> r == (sf, sf)
    ensures sf[0] == '$' && |SplitOn(sf, '=')| == 2 ==> sf == r.0 + "=" + r.1 && '=' !in r.0 && '=' !in r.1
  {
    if sf[0] == '$' then
      var parts := SplitOn(sf, '=');
      if |parts| == 2 then
        assert Join(parts, '=') == parts[0] + "=" + parts[1] by {
          assert parts[1..] == [parts[1]];
        }
        assert sf == parts[0] + "=" + parts[1];
        (parts[0], parts[1])
      else (sf, sf)
    else (sf, sf)
  }

  /** Lines 145-151: bind the variable, or compare the field literally. */
  function Settle(mode: Mode, vars: Vars, sf: string, v: string, name: string, func: string, matched: bool): (r: Verdict)
    requires name != []
    ensures r.Bind? ==> name[0] == '$' && r.key == name[1..]
    ensures r.Bind? ==> !(mode == Overwrite && r.key in vars && vars[r.key] != Scalar(v))
  {
    if (name == func || (name != func && matched)) && name[0] == '$' then
      var key := name[1..];
      if mode == Overwrite && key in vars && vars[key] != Scalar(v) then Reject else Bind(key)
    else if v != sf then Reject
    else Pass
  }

  /** What the call syntax of `func` gives (lines 131-136): not a call, a call
      of an unknown name, or the truthiness of a registered predicate's value. */
  datatype Probe = NotACall | Unknown | Holds(b: bool)

  /** Lines 131-136: a `func` ending in `)` that the call pattern recognises
      and whose name is registered is called with the field value `v` as the
      implicit value. */
  function ProbeCall(ext: Foreign, v: string, func: string): (r: Result<Probe>)
    requires func != []
  {
    if func[|func| - 1] != ')' then Ok(NotACall)
    else match ParseCall(func)
      case None => Ok(NotACall)
      case Some(call) =>
        match Lookup(call.name)
        case None => Ok(Unknown)
        case Some(p) =>
          var x :- CallFunc(ext, p, v, call.args, |func|);
          Ok(Holds(Truthy(x)))
  }

  /** Lines 137-151 once the call probe of `func` is known: a failed or
      unknown call breaks the loop when the field has no variable name, a
      predicate that holds lets a field without one pass, and every other
      case is settled by lines 145-151. */
  function Conclude(mode: Mode, vars: Vars, sf: string, v: string, name: string, func: string, probe: Probe): (r: Verdict)
    requires name != []
    ensures r.Bind? ==> name[0] == '$' && r.key == name[1..]
    ensures r.Bind? ==> !(mode == Overwrite && r.key in vars && vars[r.key] != Scalar(v))
  {
    match probe
    case NotACall => Settle(mode, vars, sf, v, name, func, false)
    case Unknown => if name == func then Reject else Settle(mode, vars, sf, v, name, func, false)
    case Holds(b) =>
      if !b then
        if name == func then Reject else Settle(mode, vars, sf, v, name, func, false)
      else if name == func then Pass
      else Settle(mode, vars, sf, v, name, func, true)
  }

  /** One iteration of the field loop of `match_spec` (lines 122-151): the spec
      field `sf` against the line's field value `v`. A failed predicate breaks
      the loop only when the field has no variable name; with one, the field
      falls through to the literal comparison of line 150. */
  function FieldCheck(ext: Foreign, mode: Mode, vars: Vars, sf: string, v: string): (r: Result<Verdict>)
    ensures sf == [] ==> r == Raise(IndexError)
    ensures r.Ok? && r.value.Bind? ==>
      sf[0] == '$' && !(mode == Overwrite && r.value.key in vars && vars[r.value.key] != Scalar(v))
  {
    if sf == [] then Raise(IndexError)
    else
      var d := Decompose(sf);
      if d.1 == [] then Raise(IndexError)
      else match ProbeCall(ext, v, d.1)
        case Raise(e) => Raise(e)
        case Ok(probe) => Ok(Conclude(mode, vars, sf, v, d.0, d.1, probe))
  }

  /** A field verdict that lets the field loop go on. */
  predicate Accepts(r: Result<Verdict>) {
    r.Ok? && r.value != Reject
  }

  /** The verdicts of the four fields of `line` against `spec`, as a function
      of the field index. */
  function Judge(ext: Foreign, mode: Mode, vars: Vars, spec: Fields, line: Fields): nat -> Result<Verdict> {
    (j: nat) => if j < 4 then FieldCheck(ext, mode, vars, spec[j], line[j]) else Ok(Pass)
  }

  /** The field loop (lines 121-152) from field `idx` on, with the bindings
      `pending` held back so far: `None` when a field breaks the loop, the
      held-back bindings when all four fields pass. A field is checked only
      when every earlier one passed. */
  function Scan(judge: nat -> Result<Verdict>, line: Fields, idx: nat, pending: seq<Assign>)
    : (r: Result<Option<seq<Assign>>>)
    requires idx <= 4
    ensures r.Ok? && r.value.Some? ==> |pending| <= |r.value.value| && r.value.value[..|pending|] == pending
    decreases 4 - idx
  {
    if idx == 4 then Ok(Some(pending))
    else
      var verdict :- judge(idx);
      match verdict
      case Reject => Ok(None)
      case Pass => Scan(judge, line, idx + 1, pending)
      case Bind(k) => Scan(judge, line, idx + 1, pending + [Assign(k, line[idx])])
  }

  /** The field loop of `match_spec` for one candidate line. */
  function CheckLine(ext: Foreign, mode: Mode, vars: Vars, spec: Fields, line: Fields): Result<Option<seq<Assign>>> {
    Scan(Judge(ext, mode, vars, spec, line), line, 0, [])
  }

  /** The next pending list after a field with verdict `v`. */
  function NextPending(v: Verdict, value: string, pending: seq<Assign>): seq<Assign> {
    if v.Bind? then pending + [Assign(v.key, value)] else pending
  }

  /** The loop runs to its end exactly when every field from `idx` on passes. */
  lemma {:induction false} FitsIffAllAccept(judge: nat -> Result<Verdict>, line: Fields, idx: nat, pending: seq<Assign>)
    requires idx <= 4
    ensures (Scan(judge, line, idx, pending).Ok? && Scan(judge, line, idx, pending).value.Some?) <==>
            forall j :: idx <= j < 4 ==> Accepts(judge(j))
    decreases 4 - idx
  {
    if idx < 4 {
      var r := judge(idx);
      if Accepts(r) {
        FitsIffAllAccept(judge, line, idx + 1, NextPending(r.value, line[idx], pending));
      }
    }
  }

  /** A broken loop names the field that broke it; an exception names the
      field that raised it; every earlier field passed. */
  lemma {:induction false} StopWitness(judge: nat -> Result<Verdict>, line: Fields, idx: nat, pending: seq<Assign>)
    requires idx <= 4
    ensures var r := Scan(judge, line, idx, pending);
      (r == Ok(None) || r.Raise?) ==>
      exists j :: idx <= j < 4 && (forall i :: idx <= i < j ==> Accepts(judge(i))) &&
        (if r.Raise? then judge(j) == Raise(r.error) else judge(j) == Ok(Reject))
    decreases 4 - idx
  {
    if idx < 4 {
      var r := judge(idx);
      if Accepts(r) {
        StopWitness(judge, line, idx + 1, NextPending(r.value, line[idx], pending));
      }
    }
  }

  /** A loop that runs to its end passed field `idx` and went on from there. */
  lemma ScanStep(judge: nat -> Result<Verdict>, line: Fields, idx: nat, pending: seq<Assign>)
    requires idx < 4
    requires Scan(judge, line, idx, pending).Ok? && Scan(judge, line, idx, pending).value.Some?
    ensures Accepts(judge(idx))
    ensures Scan(judge, line, idx, pending) ==
      Scan(judge, line, idx + 1, NextPending(judge(idx).value, line[idx], pending))
  {
  }

  /** Every held-back binding after `pending` is the name a field bound, with
      that field's value. */
  lemma {:induction false} HeldSound(judge: nat -> Result<Verdict>, line: Fields, idx: nat, pending: seq<Assign>)
    requires idx <= 4
    requires Scan(judge, line, idx, pending).Ok? && Scan(judge, line, idx, pending).value.Some?
    ensures var held := Scan(judge, line, idx, pending).value.value;
      forall i :: |pending| <= i < |held| ==>
        exists j :: idx <= j < 4 && judge(j) == Ok(Bind(held[i].key)) && held[i].value == line[j]
    decreases 4 - idx
  {
    if idx < 4 {
      var r := judge(idx);
      var next := NextPending(r.value, line[idx], pending);
      ScanStep(judge, line, idx, pending);
      HeldSound(judge, line, idx + 1, next);
      var held := Scan(judge, line, idx + 1, next).value.value;
      forall i | |pending| <= i < |held|
        ensures exists j :: idx <= j < 4 && judge(j) == Ok(Bind(held[i].key)) && held[i].value == line[j]
      {
        if i < |next| {
          assert held[..|next|][i] == next[i] == Assign(r.value.key, line[idx]);
        }
      }
    }
  }

  /** Every field that binds a name contributes its `(name, value)` pair. */
  lemma {:induction false} HeldComplete(judge: nat -> Result<Verdict>, line: Fields, idx: nat, pending: seq<Assign>)
    requires idx <= 4
    requires Scan(judge, line, idx, pending).Ok? && Scan(judge, line, idx, pending).value.Some?
    ensures var held := Scan(judge, line, idx, pending).value.value;
      forall j, k :: idx <= j < 4 && judge(j) == Ok(Bind(k)) ==> Assign(k, line[j]) in held[|pending|..]
    decreases 4 - idx
  {
    if idx < 4 {
      var r := judge(idx);
      var next := NextPending(r.value, line[idx], pending);
      ScanStep(judge, line, idx, pending);
      HeldComplete(judge, line, idx + 1, next);
      var held := Scan(judge, line, idx + 1, next).value.value;
      forall j, k | idx <= j < 4 && judge(j) == Ok(Bind(k))
        ensures Assign(k, line[j]) in held[|pending|..]
      {
        if j == idx {
          LastPendingHeld(held, pending, Assign(k, line[j]));
        } else {
          SuffixIn(held, |pending|, |next|);
        }
      }
    }
  }

  /** What a later suffix holds, an earlier one holds too. */
  lemma SuffixIn<T>(s: seq<T>, a: nat, b: nat)
    requires a <= b <= |s|
    ensures forall x :: x in s[b..] ==> x in s[a..]
  {
    forall x | x in s[b..] ensures x in s[a..] {
      var i :| b <= i < |s| && s[i] == x;
      assert s[a..][i - a] == x;
    }
  }

  /** The binding appended to `pending` is held right after it. */
  lemma LastPendingHeld(held: seq<Assign>, pending: seq<Assign>, a: Assign)
    requires |pending| + 1 <= |held| && held[..|pending| + 1] == pending + [a]
    ensures a in held[|pending|..]
  {
    assert held[..|pending| + 1][|pending|] == a;
    assert held[|pending|..][0] == a;
  }

  // ---------------------------------------------------------------------------
  // The four kinds of spec field.

  /** The call probe of lines 131-136 agrees with `_extract_result`: a
      registered call is evaluated with the field value as the implicit value
      and judged by truthiness; any other text is not evaluated. */
  lemma ProbeIsExtract(ext: Foreign, v: string, func: string)
    requires func != [] && func[|func| - 1] == ')'
    ensures IsRegisteredCall(func) && Extract(ext, v, func).Raise? ==>
      ProbeCall(ext, v, func) == Raise(Extract(ext, v, func).error)
    ensures IsRegisteredCall(func) && Extract(ext, v, func).Ok? ==>
      ProbeCall(ext, v, func) == Ok(Holds(Truthy(Extract(ext, v, func).value)))
    ensures !IsRegisteredCall(func) ==>
      ProbeCall(ext, v, func) == if ParseCall(func).Some? then Ok(Unknown) else Ok(NotACall)
  {
  }

  /** A field that is not a call and has no `$` is a literal: it passes exactly
      when the line holds the same text. */
  lemma LiteralField(ext: Foreign, mode: Mode, vars: Vars, sf: string, v: string)
    requires sf != [] && sf[0] != '$' && sf[|sf| - 1] != ')'
    ensures FieldCheck(ext, mode, vars, sf, v) == Ok(if v == sf then Pass else Reject)
  {
  }

  /** A field `$name` binds `name` to the line's value; with `_adder`, a name
      already bound admits only its present value. */
  lemma VariableField(ext: Foreign, mode: Mode, vars: Vars, sf: string, v: string)
    requires sf != [] && sf[0] == '$' && '=' !in sf && sf[|sf| - 1] != ')'
    ensures FieldCheck(ext, mode, vars, sf, v) ==
      Ok(if mode == Overwrite && sf[1..] in vars && vars[sf[1..]] != Scalar(v) then Reject else Bind(sf[1..]))
  {
    assert Decompose(sf) == (sf, sf) by {
      assert Find(sf, '=') == None;
    }
    assert ProbeCall(ext, v, sf) == Ok(NotACall);
  }

  /** A call of a registered predicate without `$` passes exactly when the
      predicate, given the line's value, returns a truthy value; its exceptions
      propagate. */
  lemma PredicateField(ext: Foreign, mode: Mode, vars: Vars, sf: string, v: string)
    requires sf != [] && sf[0] != '$' && sf[|sf| - 1] == ')' && IsRegisteredCall(sf)
    ensures Extract(ext, v, sf).Raise? ==> FieldCheck(ext, mode, vars, sf, v) == Raise(Extract(ext, v, sf).error)
    ensures Extract(ext, v, sf).Ok? ==>
      FieldCheck(ext, mode, vars, sf, v) == Ok(if Truthy(Extract(ext, v, sf).value) then Pass else Reject)
  {
    ProbeIsExtract(ext, v, sf);
    assert Decompose(sf) == (sf, sf);
  }

  /** Call syntax with a name that is not registered rejects every line
      (lines 143-144), although `_extract_result` would read it as a literal. */
  lemma UnknownCallField(ext: Foreign, mode: Mode, vars: Vars, sf: string, v: string)
    requires sf != [] && sf[0] != '$' && sf[|sf| - 1] == ')'
    requires ParseCall(sf).Some? && !IsRegisteredCall(sf)
    ensures FieldCheck(ext, mode, vars, sf, v) == Ok(Reject)
    ensures Extract(ext, v, sf) == Ok(Str(sf))
  {
    ProbeIsExtract(ext, v, sf);
    UnknownProbeRejects(ext, mode, vars, sf, v);
  }

  /** A field without `$` whose call probe finds an unknown name rejects. */
  lemma UnknownProbeRejects(ext: Foreign, mode: Mode, vars: Vars, sf: string, v: string)
    requires sf != [] && sf[0] != '$' && ProbeCall(ext, v, sf) == Ok(Unknown)
    ensures FieldCheck(ext, mode, vars, sf, v) == Ok(Reject)
  {
    assert Decompose(sf) == (sf, sf);
  }

  /** `$name=func` is cut at its `=`. */
  lemma DecomposeGuarded(name: string, func: string)
    requires name != [] && name[0] == '$' && '=' !in name && '=' !in func
    ensures Decompose(name + "=" + func) == (name, func)
  {
    var sf := name + "=" + func;
    assert Join([name, func], '=') == sf by {
      assert [name, func][1..] == [func];
    }
    SplitJoin([name, func], '=');
  }

  /** `$name=func` consults the call probe of `func` and otherwise settles the
      field as lines 145-151 do, with `matched` set only by a predicate that
      holds. */
  lemma GuardedProbe(ext: Foreign, mode: Mode, vars: Vars, name: string, func: string, v: string)
    requires name != [] && name[0] == '$' && '=' !in name && '=' !in func && func != [] && name != func
    ensures var sf := name + "=" + func; var pr := ProbeCall(ext, v, func);
      && (pr.Raise? ==> FieldCheck(ext, mode, vars, sf, v) == Raise(pr.error))
      && (pr.Ok? ==>
            FieldCheck(ext, mode, vars, sf, v) == Ok(Settle(mode, vars, sf, v, name, func, pr.value == Holds(true))))
  {
    DecomposeGuarded(name, func);
    FieldUnfold(ext, mode, vars, name + "=" + func, v, name, func);
  }

  /** A field whose split is known is settled by the probe of its call part. */
  lemma FieldUnfold(ext: Foreign, mode: Mode, vars: Vars, sf: string, v: string, name: string, func: string)
    requires sf != [] && Decompose(sf) == (name, func) && func != []
    ensures FieldCheck(ext, mode, vars, sf, v) ==
      match ProbeCall(ext, v, func)
      case Raise(e) => Raise(e)
      case Ok(probe) => Ok(Conclude(mode, vars, sf, v, name, func, probe))
  {
  }

  /** `$name=f(...)` with a registered `f`: when the predicate holds, the field
      binds `name` as `$name` would; when it fails, `matched` stays false and
      the field is compared literally with the whole spec text (line 150), so
      it rejects every ordinary value. */
  lemma GuardedField(ext: Foreign, mode: Mode, vars: Vars, name: string, func: string, v: string)
    requires name != [] && name[0] == '$' && '=' !in name && '=' !in func
    requires func != [] && func[|func| - 1] == ')' && IsRegisteredCall(func)
    ensures var sf := name + "=" + func; var x := Extract(ext, v, func);
      && (x.Raise? ==> FieldCheck(ext, mode, vars, sf, v) == Raise(x.error))
      && (x.Ok? && Truthy(x.value) ==>
            FieldCheck(ext, mode, vars, sf, v) ==
            Ok(if mode == Overwrite && name[1..] in vars && vars[name[1..]] != Scalar(v) then Reject else Bind(name[1..])))
      && (x.Ok? && !Truthy(x.value) ==>
            FieldCheck(ext, mode, vars, sf, v) == Ok(if v == name + "=" + func then Pass else Reject))
  {
    RegisteredNotVariable(name, func);
    GuardedProbe(ext, mode, vars, name, func, v);
    ProbeIsExtract(ext, v, func);
  }

  /** No registered predicate name starts with `$`, so a registered call is
      never a variable name. */
  lemma RegisteredNotVariable(name: string, func: string)
    requires name != [] && name[0] == '$' && IsRegisteredCall(func)
    ensures name != func
  {
    var call := ParseCall(func).value;
    CallNameIsPrefix(func);
    assert func[0] == call.name[0];
    assert call.name[0] != '$' by {
      var p := Lookup(call.name).value;
      assert Name(p) == call.name;
      NameUnmarked(p);
    }
  }

  /** Predicate names are non-empty and do not start with `$`. */
  lemma NameUnmarked(p: Pred)
    ensures Name(p) != [] && Name(p)[0] != '$'
  {
  }

  /** The name of a parsed call is the text before its parenthesis. */
  lemma CallNameIsPrefix(e: string)
    requires ParseCall(e).Some?
    ensures |ParseCall(e).value.name| <= |e| && e[..|ParseCall(e).value.name|] == ParseCall(e).value.name
  {
  }

  // ---------------------------------------------------------------------------
  // Storing bindings (`_adder`, `_appender`).

  /** `adder(arr, key, value)`: `_adder` overwrites; `_appender` appends to the
      list under `key`, starting a one-element list for a new key, and raises
      `AttributeError` on a key that holds a single text. */
  function Store(mode: Mode, vars: Vars, key: string, value: string): (r: Result<Vars>)
    ensures r.Ok? ==> r.value.Keys == vars.Keys + {key} && forall k :: k in vars && k != key ==> r.value[k] == vars[k]
    ensures mode == Overwrite ==> r.Ok? && r.value[key] == Scalar(value)
    ensures mode == Append && key !in vars ==> r.Ok? && r.value[key] == List([value])
    ensures mode == Append && key in vars && vars[key].List? ==> r.Ok? && r.value[key] == List(vars[key].items + [value])
    ensures mode == Append && key in vars && vars[key].Scalar? ==> r == Raise(AttributeError)
  {
    match mode
    case Overwrite => Ok(vars[key := Scalar(value)])
    case Append =>
      if key !in vars then Ok(vars[key := List([value])])
      else match vars[key]
        case List(items) => Ok(vars[key := List(items + [value])])
        case Scalar(_) => Raise(AttributeError)
  }

  /** The dictionary after an attempt to store bindings, with the exception
      that stopped it, if any; bindings stored before the exception stay. */
  datatype Applied = Applied(vars: Vars, error: Option<PyError>)

  /** Lines 153-154: the held-back bindings stored in order. */
  function Commit(mode: Mode, vars: Vars, held: seq<Assign>): (r: Applied)
    ensures mode == Overwrite ==> r.error.None?
    decreases |held|
  {
    if held == [] then Applied(vars, None)
    else match Store(mode, vars, held[0].key, held[0].value)
      case Raise(e) => Applied(vars, Some(e))
      case Ok(next) => Commit(mode, next, held[1..])
  }

  /** The keys `held` binds. */
  function HeldKeys(held: seq<Assign>): (r: set<string>)
    ensures forall i :: 0 <= i < |held| ==> held[i].key in r
    ensures forall k :: k in r ==> exists i :: 0 <= i < |held| && held[i].key == k
  {
    set i | 0 <= i < |held| :: held[i].key
  }

  /** The keys of a non-empty `held`: its head's and its tail's. */
  lemma HeldKeysSplit(held: seq<Assign>)
    requires held != []
    ensures HeldKeys(held) == {held[0].key} + HeldKeys(held[1..])
  {
    forall k | k in HeldKeys(held) ensures k in {held[0].key} + HeldKeys(held[1..]) {
      var i :| 0 <= i < |held| && held[i].key == k;
      if i > 0 { assert held[1..][i - 1].key == k; }
    }
  }

  /** With `_adder`, storing adds exactly the bound keys and keeps every other
      variable. */
  lemma {:induction false} CommitOverwriteFrame(vars: Vars, held: seq<Assign>)
    ensures var r := Commit(Overwrite, vars, held).vars;
      && r.Keys == vars.Keys + HeldKeys(held)
      && (forall k :: k in vars && k !in HeldKeys(held) ==> r[k] == vars[k])
    decreases |held|
  {
    if held != [] {
      var next := Store(Overwrite, vars, held[0].key, held[0].value).value;
      CommitOverwriteFrame(next, held[1..]);
      HeldKeysSplit(held);
    }
  }

  /** With `_adder`, a variable bound several times ends with its last value. */
  lemma {:induction false} CommitLastWins(vars: Vars, held: seq<Assign>, i: nat)
    requires i < |held| && forall j :: i < j < |held| ==> held[j].key != held[i].key
    ensures held[i].key in Commit(Overwrite, vars, held).vars
    ensures Commit(Overwrite, vars, held).vars[held[i].key] == Scalar(held[i].value)
    decreases |held|
  {
    var next := Store(Overwrite, vars, held[0].key, held[0].value).value;
    assert Commit(Overwrite, vars, held) == Commit(Overwrite, next, held[1..]);
    if i > 0 {
      assert held[1..][i - 1] == held[i];
      forall j | i - 1 < j < |held| - 1 ensures held[1..][j].key != held[1..][i - 1].key {
        assert held[1..][j] == held[j + 1];
      }
      CommitLastWins(next, held[1..], i - 1);
    } else {
      CommitOverwriteFrame(next, held[1..]);
      assert held[0].key !in HeldKeys(held[1..]);
    }
  }

  /** The values `held` binds to `k`, in order. */
  function ValuesOf(held: seq<Assign>, k: string): (r: seq<string>)
    decreases |held|
  {
    if held == [] then []
    else (if held[0].key == k then [held[0].value] else []) + ValuesOf(held[1..], k)
  }

  /** A key `held` does not bind gets no values. */
  lemma {:induction false} ValuesOfAbsent(held: seq<Assign>, k: string)
    requires k !in HeldKeys(held)
    ensures ValuesOf(held, k) == []
    decreases |held|
  {
    if held != [] {
      HeldKeysSplit(held);
      ValuesOfAbsent(held[1..], k);
    }
  }

  /** The list a variable holds before `_appender` extends it. */
  function Items(vars: Vars, k: string): seq<string> {
    if k in vars && vars[k].List? then vars[k].items else []
  }

  /** Storing, complete or stopped, leaves every variable outside `held` as it
      was and adds no other key. */
  lemma {:induction false} CommitFrame(mode: Mode, vars: Vars, held: seq<Assign>)
    ensures var r := Commit(mode, vars, held).vars;
      && r.Keys <= vars.Keys + HeldKeys(held)
      && (forall k :: k in vars && k !in HeldKeys(held) ==> k in r && r[k] == vars[k])
    decreases |held|
  {
    if held != [] {
      HeldKeysSplit(held);
      var st := Store(mode, vars, held[0].key, held[0].value);
      if st.Ok? {
        CommitFrame(mode, st.value, held[1..]);
      }
    }
  }

  /** No bound variable holds a single text. */
  predicate Appendable(vars: Vars, held: seq<Assign>) {
    forall i :: 0 <= i < |held| && held[i].key in vars ==> vars[held[i].key].List?
  }

  /** Appending the head keeps the tail appendable. */
  lemma AppendableTail(vars: Vars, held: seq<Assign>)
    requires held != [] && Appendable(vars, held)
    ensures Store(Append, vars, held[0].key, held[0].value).Ok?
    ensures Appendable(Store(Append, vars, held[0].key, held[0].value).value, held[1..])
  {
    var next := Store(Append, vars, held[0].key, held[0].value).value;
    forall i | 0 <= i < |held| - 1 && held[1..][i].key in next ensures next[held[1..][i].key].List? {
      assert held[1..][i] == held[i + 1];
    }
  }

  /** With `_appender`, when no bound variable holds a single text, storing
      succeeds. */
  lemma {:induction false} CommitAppendsOk(vars: Vars, held: seq<Assign>)
    requires Appendable(vars, held)
    ensures Commit(Append, vars, held).error.None?
    decreases |held|
  {
    if held != [] {
      AppendableTail(vars, held);
      CommitAppendsOk(Store(Append, vars, held[0].key, held[0].value).value, held[1..]);
    }
  }

  /** Appending a value to a variable that holds a list, or to a new one,
      extends that variable's list and no other. */
  lemma AppendItems(vars: Vars, k0: string, value: string, k: string)
    requires k0 in vars ==> vars[k0].List?
    ensures Store(Append, vars, k0, value).Ok?
    ensures Items(Store(Append, vars, k0, value).value, k) == Items(vars, k) + (if k == k0 then [value] else [])
  {
  }

  /** Appending the head's value moves it from the bindings still to store to
      the variable's list. */
  lemma AppendStep(vars: Vars, held: seq<Assign>, k: string)
    requires held != [] && (held[0].key in vars ==> vars[held[0].key].List?)
    ensures Store(Append, vars, held[0].key, held[0].value).Ok?
    ensures var next := Store(Append, vars, held[0].key, held[0].value).value;
      Items(next, k) + ValuesOf(held[1..], k) == Items(vars, k) + ValuesOf(held, k)
  {
    var head := if held[0].key == k then [held[0].value] else [];
    AppendItems(vars, held[0].key, held[0].value, k);
    ValuesOfHead(held, k);
    Assoc(Items(vars, k), head, ValuesOf(held[1..], k));
  }

  /** The values of `held` for `k`: the head's, then the tail's. */
  lemma ValuesOfHead(held: seq<Assign>, k: string)
    requires held != []
    ensures ValuesOf(held, k) == (if held[0].key == k then [held[0].value] else []) + ValuesOf(held[1..], k)
  {
  }

  /** With `_appender`, when no bound variable holds a single text, each bound
      variable's list gains its values in line order. */
  lemma {:induction false} CommitAppends(vars: Vars, held: seq<Assign>, k: string)
    requires Appendable(vars, held) && k in HeldKeys(held)
    ensures k in Commit(Append, vars, held).vars
    ensures Commit(Append, vars, held).vars[k] == List(Items(vars, k) + ValuesOf(held, k))
    decreases |held|
  {
    AppendableTail(vars, held);
    assert held[0].key in vars ==> vars[held[0].key].List?;
    AppendStep(vars, held, k);
    var next := Store(Append, vars, held[0].key, held[0].value).value;
    assert Commit(Append, vars, held) == Commit(Append, next, held[1..]);
    HeldKeysSplit(held);
    if k in HeldKeys(held[1..]) {
      CommitAppends(next, held[1..], k);
    } else {
      CommitFrame(Append, next, held[1..]);
      ValuesOfAbsent(held[1..], k);
      assert next[k].List?;
    }
  }

  /** With `_appender`, a bound variable that holds a single text stops the
      storing with `AttributeError`. */
  lemma {:induction false} CommitAppendOnText(vars: Vars, held: seq<Assign>, i: nat)
    requires i < |held| && held[i].key in vars && vars[held[i].key].Scalar?
    ensures Commit(Append, vars, held).error == Some(AttributeError)
    decreases |held|
  {
    var st := Store(Append, vars, held[0].key, held[0].value);
    if i > 0 && st.Ok? {
      assert held[1..][i - 1] == held[i];
      CommitAppendOnText(st.value, held[1..], i - 1);
    }
  }

  // ---------------------------------------------------------------------------
  // `match_spec`.

  /** What a call of `match_spec` leaves behind: its result (`None` for
      `False`), the variable dictionary and the line pool. */
  datatype Step = Step(found: Result<Option<Fields>>, vars: Vars, lines: seq<Fields>)

  /** A call that returned a line. */
  predicate Found(st: Step) {
    st.found.Ok? && st.found.value.Some?
  }

  /** The field loop as a function of the candidate line. */
  type LineJudge = Fields -> Result<Option<seq<Assign>>>

  /** The field loop of `match_spec` for `spec` against the dictionary as it is
      when the search starts (bindings are held back, so it does not change
      during the search). */
  function LineCheck(ext: Foreign, mode: Mode, vars: Vars, spec: Fields): LineJudge {
    (line: Fields) => CheckLine(ext, mode, vars, spec, line)
  }

  /** Lines 118-158 from candidate `lidx` on: the first line whose four fields
      pass gets its held-back bindings stored and is deleted from the pool. */
  function SearchFrom(check: LineJudge, mode: Mode, vars: Vars, lines: seq<Fields>, lidx: nat): Step
    requires lidx <= |lines|
    decreases |lines| - lidx
  {
    if lidx == |lines| then Step(Ok(None), vars, lines)
    else match check(lines[lidx])
      case Raise(e) => Step(Raise(e), vars, lines)
      case Ok(None) => SearchFrom(check, mode, vars, lines, lidx + 1)
      case Ok(Some(held)) =>
        var a := Commit(mode, vars, held);
        if a.error.Some? then Step(Raise(a.error.value), a.vars, lines)
        else Step(Ok(Some(lines[lidx])), a.vars, Remove(lines, lidx))
  }

  /** The search deletes exactly the line it returns, keeps the pool when it
      returns none, and touches no variable when it finds nothing. */
  lemma {:induction false} SearchShape(check: LineJudge, mode: Mode, vars: Vars, lines: seq<Fields>, lidx: nat)
    requires lidx <= |lines|
    ensures var r := SearchFrom(check, mode, vars, lines, lidx);
      && (Found(r) ==> |r.lines| == |lines| - 1 && multiset(r.lines) + multiset{r.found.value.value} == multiset(lines))
      && (!Found(r) ==> r.lines == lines)
      && (r.found == Ok(None) ==> r.vars == vars)
    decreases |lines| - lidx
  {
    if lidx < |lines| && check(lines[lidx]) == Ok(None) {
      SearchShape(check, mode, vars, lines, lidx + 1);
    }
  }

  /** `match_spec(spec, lines, arr, adder)`: a line equal to the spec is taken
      as it is (lines 113-117); otherwise the field-by-field search runs. */
  function SpecMatch(ext: Foreign, mode: Mode, vars: Vars, spec: Fields, lines: seq<Fields>): (r: Step)
    ensures Found(r) ==> |r.lines| == |lines| - 1 && multiset(r.lines) + multiset{r.found.value.value} == multiset(lines)
    ensures !Found(r) ==> r.lines == lines
    ensures r.found == Ok(None) ==> r.vars == vars
  {
    match Find(lines, spec)
    case Some(i) => Step(Ok(Some(lines[i])), vars, Remove(lines, i))
    case None =>
      SearchShape(LineCheck(ext, mode, vars, spec), mode, vars, lines, 0);
      SearchFrom(LineCheck(ext, mode, vars, spec), mode, vars, lines, 0)
  }

  /** A line equal to the spec is found by the fast path: the first one is
      returned and deleted, and no variable is touched. */
  lemma FastPath(ext: Foreign, mode: Mode, vars: Vars, spec: Fields, lines: seq<Fields>, i: nat)
    requires i < |lines| && lines[i] == spec && spec !in lines[..i]
    ensures SpecMatch(ext, mode, vars, spec, lines) == Step(Ok(Some(spec)), vars, Remove(lines, i))
  {
  }

  /** The search from `lidx` finds nothing exactly when no candidate from
      `lidx` on passes its four fields or raises. */
  lemma {:induction false} SearchNoneIff(check: LineJudge, mode: Mode, vars: Vars, lines: seq<Fields>, lidx: nat)
    requires lidx <= |lines|
    ensures SearchFrom(check, mode, vars, lines, lidx).found == Ok(None) <==>
      forall i :: lidx <= i < |lines| ==> check(lines[i]) == Ok(None)
    decreases |lines| - lidx
  {
    if lidx < |lines| {
      SearchNoneIff(check, mode, vars, lines, lidx + 1);
    }
  }

  /** `match_spec` returns `False` exactly when no line equals the spec and no
      line passes its four fields or raises; it then leaves the pool and the
      variables as they were. */
  lemma NoMatchIff(ext: Foreign, mode: Mode, vars: Vars, spec: Fields, lines: seq<Fields>)
    ensures var r := SpecMatch(ext, mode, vars, spec, lines);
      && (r.found == Ok(None) <==>
            spec !in lines && forall i :: 0 <= i < |lines| ==> CheckLine(ext, mode, vars, spec, lines[i]) == Ok(None))
      && (r.found == Ok(None) ==> r.vars == vars && r.lines == lines)
  {
    SearchNoneIff(LineCheck(ext, mode, vars, spec), mode, vars, lines, 0);
  }

  /** Candidate `i` is the first from `lidx` on that passes its four fields,
      none before it raising, and its bindings are stored without an
      exception. */
  predicate FirstFit(check: LineJudge, mode: Mode, vars: Vars, lines: seq<Fields>, lidx: nat, i: nat) {
    && lidx <= i < |lines|
    && (forall j :: lidx <= j < i ==> check(lines[j]) == Ok(None))
    && check(lines[i]).Ok? && check(lines[i]).value.Some?
    && Commit(mode, vars, check(lines[i]).value.value).error.None?
  }

  /** A failing candidate before the first passing one keeps it first. */
  lemma FirstFitBack(check: LineJudge, mode: Mode, vars: Vars, lines: seq<Fields>, lidx: nat, i: nat)
    requires lidx < |lines| && check(lines[lidx]) == Ok(None)
    requires FirstFit(check, mode, vars, lines, lidx + 1, i)
    ensures FirstFit(check, mode, vars, lines, lidx, i)
  {
  }

  /** A search that finds a line has a candidate left, and one that does not
      fail passes first. */
  lemma SearchAt(check: LineJudge, mode: Mode, vars: Vars, lines: seq<Fields>, lidx: nat)
    requires lidx <= |lines| && Found(SearchFrom(check, mode, vars, lines, lidx))
    ensures lidx < |lines|
    ensures check(lines[lidx]) != Ok(None) ==> FirstFit(check, mode, vars, lines, lidx, lidx)
  {
  }

  /** A candidate that fails hands the search on to the next one. */
  lemma SearchSkip(check: LineJudge, mode: Mode, vars: Vars, lines: seq<Fields>, lidx: nat)
    requires lidx < |lines| && check(lines[lidx]) == Ok(None)
    ensures SearchFrom(check, mode, vars, lines, lidx) == SearchFrom(check, mode, vars, lines, lidx + 1)
  {
  }

  /** A candidate that passes and whose bindings store ends the search. */
  lemma SearchHit(check: LineJudge, mode: Mode, vars: Vars, lines: seq<Fields>, i: nat)
    requires FirstFit(check, mode, vars, lines, i, i)
    ensures SearchFrom(check, mode, vars, lines, i) ==
      Step(Ok(Some(lines[i])), Commit(mode, vars, check(lines[i]).value.value).vars, Remove(lines, i))
  {
  }

  /** The search takes the first candidate that passes: the result is that
      line, with its bindings stored and the line deleted. */
  lemma {:induction false} SearchTakesFirst(check: LineJudge, mode: Mode, vars: Vars, lines: seq<Fields>, lidx: nat, i: nat)
    requires FirstFit(check, mode, vars, lines, lidx, i)
    ensures SearchFrom(check, mode, vars, lines, lidx) ==
      Step(Ok(Some(lines[i])), Commit(mode, vars, check(lines[i]).value.value).vars, Remove(lines, i))
    decreases i - lidx
  {
    if lidx < i {
      SearchSkip(check, mode, vars, lines, lidx);
      SearchTakesFirst(check, mode, vars, lines, lidx + 1, i);
    } else {
      SearchHit(check, mode, vars, lines, i);
    }
  }

  /** Conversely, a line found by the search is such a first passing
      candidate. */
  lemma {:induction false} SearchFoundIsFirst(check: LineJudge, mode: Mode, vars: Vars, lines: seq<Fields>, lidx: nat)
    requires lidx <= |lines| && Found(SearchFrom(check, mode, vars, lines, lidx))
    ensures exists i: nat :: (
      && FirstFit(check, mode, vars, lines, lidx, i)
      && SearchFrom(check, mode, vars, lines, lidx) ==
           Step(Ok(Some(lines[i])), Commit(mode, vars, check(lines[i]).value.value).vars, Remove(lines, i)))
    decreases |lines| - lidx
  {
    SearchAt(check, mode, vars, lines, lidx);
    if check(lines[lidx]) == Ok(None) {
      SearchSkip(check, mode, vars, lines, lidx);
      SearchFoundIsFirst(check, mode, vars, lines, lidx + 1);
      var i: nat :| FirstFit(check, mode, vars, lines, lidx + 1, i) &&
        SearchFrom(check, mode, vars, lines, lidx + 1) ==
          Step(Ok(Some(lines[i])), Commit(mode, vars, check(lines[i]).value.value).vars, Remove(lines, i));
      FirstFitBack(check, mode, vars, lines, lidx, i);
    } else {
      SearchHit(check, mode, vars, lines, lidx);
    }
  }

  /** Without a line equal to the spec, `match_spec` returns a line exactly when
      some line passes: the first candidate that passes, with its bindings
      stored and the line deleted. */
  lemma GeneralMatch(ext: Foreign, mode: Mode, vars: Vars, spec: Fields, lines: seq<Fields>)
    requires spec !in lines
    ensures var r := SpecMatch(ext, mode, vars, spec, lines); var check := LineCheck(ext, mode, vars, spec);
      Found(r) ==> exists i: nat :: (
        && FirstFit(check, mode, vars, lines, 0, i)
        && r == Step(Ok(Some(lines[i])), Commit(mode, vars, check(lines[i]).value.value).vars, Remove(lines, i)))
    ensures forall i: nat :: FirstFit(LineCheck(ext, mode, vars, spec), mode, vars, lines, 0, i) ==>
      SpecMatch(ext, mode, vars, spec, lines) ==
        Step(Ok(Some(lines[i])), Commit(mode, vars, CheckLine(ext, mode, vars, spec, lines[i]).value.value).vars, Remove(lines, i))
  {
    var check := LineCheck(ext, mode, vars, spec);
    if Found(SpecMatch(ext, mode, vars, spec, lines)) {
      SearchFoundIsFirst(check, mode, vars, lines, 0);
    }
    forall i: nat | FirstFit(check, mode, vars, lines, 0, i)
      ensures SpecMatch(ext, mode, vars, spec, lines) ==
        Step(Ok(Some(lines[i])), Commit(mode, vars, CheckLine(ext, mode, vars, spec, lines[i]).value.value).vars, Remove(lines, i))
    {
      SearchTakesFirst(check, mode, vars, lines, 0, i);
    }
  }

  /** In a line that passes, every field's check lets the loop go on, so
      every literal field of the spec is the line's field. */
  lemma FitAccepts(ext: Foreign, mode: Mode, vars: Vars, spec: Fields, line: Fields, j: nat)
    requires CheckLine(ext, mode, vars, spec, line).Ok? && CheckLine(ext, mode, vars, spec, line).value.Some?
    requires j < 4
    ensures Accepts(FieldCheck(ext, mode, vars, spec[j], line[j]))
    ensures spec[j] != [] && spec[j][0] != '$' && spec[j][|spec[j]| - 1] != ')' ==> line[j] == spec[j]
  {
    var judge := Judge(ext, mode, vars, spec, line);
    FitsIffAllAccept(judge, line, 0, []);
    assert Accepts(judge(j));
    if spec[j] != [] && spec[j][0] != '$' && spec[j][|spec[j]| - 1] != ')' {
      LiteralAccepted(ext, mode, vars, spec[j], line[j]);
    }
  }

  /** A literal field lets the loop go on only for its own text. */
  lemma LiteralAccepted(ext: Foreign, mode: Mode, vars: Vars, sf: string, v: string)
    requires sf != [] && sf[0] != '$' && sf[|sf| - 1] != ')'
    requires Accepts(FieldCheck(ext, mode, vars, sf, v))
    ensures v == sf
  {
    LiteralField(ext, mode, vars, sf, v);
  }

  /** In a line that passes, a `$name` field of the spec records `name` with the
      line's field; with `_adder`, a name already bound holds that value. */
  lemma FitVariable(ext: Foreign, mode: Mode, vars: Vars, spec: Fields, line: Fields, j: nat)
    requires CheckLine(ext, mode, vars, spec, line).Ok? && CheckLine(ext, mode, vars, spec, line).value.Some?
    requires j < 4 && spec[j] != [] && spec[j][0] == '$' && '=' !in spec[j] && spec[j][|spec[j]| - 1] != ')'
    ensures Assign(spec[j][1..], line[j]) in CheckLine(ext, mode, vars, spec, line).value.value
    ensures mode == Overwrite && spec[j][1..] in vars ==> vars[spec[j][1..]] == Scalar(line[j])
  {
    var judge := Judge(ext, mode, vars, spec, line);
    var k := spec[j][1..];
    JudgeAt(ext, mode, vars, spec, line, j);
    VariableField(ext, mode, vars, spec[j], line[j]);
    AcceptedBind(judge, line, j, k, mode == Overwrite && k in vars && vars[k] != Scalar(line[j]));
  }

  /** A field whose verdict is a binding unless `reject` holds, in a loop that
      runs to its end: `reject` is false and the binding is held. */
  lemma AcceptedBind(judge: nat -> Result<Verdict>, line: Fields, j: nat, k: string, reject: bool)
    requires Scan(judge, line, 0, []).Ok? && Scan(judge, line, 0, []).value.Some?
    requires j < 4 && judge(j) == Ok(if reject then Reject else Bind(k))
    ensures !reject && Assign(k, line[j]) in Scan(judge, line, 0, []).value.value
  {
    FitsIffAllAccept(judge, line, 0, []);
    assert Accepts(judge(j));
    HeldBinding(judge, line, j, k);
  }

  /** A field that binds `k` in a loop that runs to its end holds `k` with the
      field's value. */
  lemma HeldBinding(judge: nat -> Result<Verdict>, line: Fields, j: nat, k: string)
    requires Scan(judge, line, 0, []).Ok? && Scan(judge, line, 0, []).value.Some?
    requires j < 4 && judge(j) == Ok(Bind(k))
    ensures Assign(k, line[j]) in Scan(judge, line, 0, []).value.value
  {
    HeldComplete(judge, line, 0, []);
    assert Scan(judge, line, 0, []).value.value[0..] == Scan(judge, line, 0, []).value.value;
  }

  /** The verdict for field `j` is that field's check. */
  lemma JudgeAt(ext: Foreign, mode: Mode, vars: Vars, spec: Fields, line: Fields, j: nat)
    requires j < 4
    ensures Judge(ext, mode, vars, spec, line)(j) == FieldCheck(ext, mode, vars, spec[j], line[j])
  {
  }

  /** A field that binds a name binds the variable name of its spec text. */
  lemma BindKey(ext: Foreign, mode: Mode, vars: Vars, sf: string, v: string)
    requires FieldCheck(ext, mode, vars, sf, v).Ok? && FieldCheck(ext, mode, vars, sf, v).value.Bind?
    ensures sf != [] && sf[0] == '$' && FieldCheck(ext, mode, vars, sf, v).value.key == Decompose(sf).0[1..]
  {
    var d := Decompose(sf);
    assert FieldCheck(ext, mode, vars, sf, v) == Ok(Conclude(mode, vars, sf, v, d.0, d.1, ProbeCall(ext, v, d.1).value));
  }

  /** The field verdicts of a line, stated on their spec fields. */
  lemma JudgeBinds(ext: Foreign, mode: Mode, vars: Vars, spec: Fields, line: Fields, j: nat)
    requires j < 4
    ensures var r := Judge(ext, mode, vars, spec, line)(j);
      r.Ok? && r.value.Bind? ==> spec[j] != [] && spec[j][0] == '$' && r.value.key == Decompose(spec[j]).0[1..]
  {
    var r := Judge(ext, mode, vars, spec, line)(j);
    assert r == FieldCheck(ext, mode, vars, spec[j], line[j]);
    if r.Ok? && r.value.Bind? {
      BindKey(ext, mode, vars, spec[j], line[j]);
    }
  }

  /** Every binding recorded for a line that passes comes from a field of the
      spec that starts with `$`: its name is that field's variable name and its
      value the line's field. */
  lemma FitBindingsSound(ext: Foreign, mode: Mode, vars: Vars, spec: Fields, line: Fields)
    requires CheckLine(ext, mode, vars, spec, line).Ok? && CheckLine(ext, mode, vars, spec, line).value.Some?
    ensures var held := CheckLine(ext, mode, vars, spec, line).value.value;
      forall i :: 0 <= i < |held| ==> exists j :: (
        && 0 <= j < 4 && spec[j] != [] && spec[j][0] == '$'
        && held[i].key == Decompose(spec[j]).0[1..] && held[i].value == line[j])
  {
    var judge := Judge(ext, mode, vars, spec, line);
    HeldSound(judge, line, 0, []);
    var held := CheckLine(ext, mode, vars, spec, line).value.value;
    forall i | 0 <= i < |held|
      ensures exists j :: (
        && 0 <= j < 4 && spec[j] != [] && spec[j][0] == '$'
        && held[i].key == Decompose(spec[j]).0[1..] && held[i].value == line[j])
    {
      var j :| 0 <= j < 4 && judge(j) == Ok(Bind(held[i].key)) && held[i].value == line[j];
      JudgeBinds(ext, mode, vars, spec, line, j);
    }
  }

  /** The variable names a spec's fields bind: the `var` part of each
      `$`-field without its `$`. */
  function SpecKeys(spec: Fields): (r: set<string>)
    ensures forall j :: 0 <= j < 4 && spec[j] != [] && spec[j][0] == '$' ==> Decompose(spec[j]).0[1..] in r
  {
    set j | 0 <= j < 4 && spec[j] != [] && spec[j][0] == '$' :: Decompose(spec[j]).0[1..]
  }

  /** A search whose candidates bind only `keys` changes no other variable,
      whether it finds a line, finds none or raises. */
  lemma {:induction false} SearchFrame(check: LineJudge, mode: Mode, vars: Vars, lines: seq<Fields>, lidx: nat, keys: set<string>)
    requires lidx <= |lines|
    requires forall line :: check(line).Ok? && check(line).value.Some? ==> HeldKeys(check(line).value.value) <= keys
    ensures var r := SearchFrom(check, mode, vars, lines, lidx).vars;
      forall k :: k in vars && k !in keys ==> k in r && r[k] == vars[k]
    decreases |lines| - lidx
  {
    if lidx < |lines| {
      match check(lines[lidx])
      case Raise(_) =>
      case Ok(None) => SearchFrame(check, mode, vars, lines, lidx + 1, keys);
      case Ok(Some(held)) => CommitFrame(mode, vars, held);
    }
  }

  /** `match_spec` changes no variable but those its spec's fields name. */
  lemma SpecMatchFrame(ext: Foreign, mode: Mode, vars: Vars, spec: Fields, lines: seq<Fields>)
    ensures var r := SpecMatch(ext, mode, vars, spec, lines).vars;
      forall k :: k in vars && k !in SpecKeys(spec) ==> k in r && r[k] == vars[k]
  {
    var check := LineCheck(ext, mode, vars, spec);
    forall line | check(line).Ok? && check(line).value.Some?
      ensures HeldKeys(check(line).value.value) <= SpecKeys(spec)
    {
      assert check(line) == CheckLine(ext, mode, vars, spec, line);
      FitBindingsSound(ext, mode, vars, spec, line);
    }
    SearchFrame(check, mode, vars, lines, 0, SpecKeys(spec));
  }

  /** A variable used twice in one spec is not compared within the line: the
      dictionary is consulted only for names bound before the call, so the spec
      `($a, $a, x, y)` accepts the line `(1, 2, x, y)` under `_adder`, and the
      later field's value is the one kept. */
  lemma RepeatedVariableUnchecked(ext: Foreign)
    ensures CheckLine(ext, Overwrite, map[], ["$a", "$a", "x", "y"], ["1", "2", "x", "y"]) ==
      Ok(Some([Assign("a", "1"), Assign("a", "2")]))
    ensures Commit(Overwrite, map[], [Assign("a", "1"), Assign("a", "2")]).vars == map["a" := Scalar("2")]
  {
    CommitTwice("a", "1", "2");
    var spec: Fields := ["$a", "$a", "x", "y"];
    var line: Fields := ["1", "2", "x", "y"];
    RepeatedVerdicts(ext);
    ScanTwoBinds(Judge(ext, Overwrite, map[], spec, line), line, "a");
  }

  /** Storing `k` twice with `_adder` keeps the second value. */
  lemma CommitTwice(k: string, x: string, y: string)
    ensures Commit(Overwrite, map[], [Assign(k, x), Assign(k, y)]).vars == map[k := Scalar(y)]
  {
    var held := [Assign(k, x), Assign(k, y)];
    var empty: Vars := map[];
    var once := empty[k := Scalar(x)];
    assert Store(Overwrite, empty, k, x) == Ok(once);
    assert Store(Overwrite, once, k, y) == Ok(once[k := Scalar(y)]);
    assert once[k := Scalar(y)] == map[k := Scalar(y)];
    assert held[1..] == [Assign(k, y)] && held[1..][1..] == [];
    assert Commit(Overwrite, empty, held) == Commit(Overwrite, once, [Assign(k, y)]);
    assert Commit(Overwrite, once, [Assign(k, y)]) == Commit(Overwrite, once[k := Scalar(y)], []);
  }

  /** The field loop over two fields that bind `k` followed by two that pass. */
  lemma ScanTwoBinds(judge: nat -> Result<Verdict>, line: Fields, k: string)
    requires judge(0) == Ok(Bind(k)) && judge(1) == Ok(Bind(k)) && judge(2) == Ok(Pass) && judge(3) == Ok(Pass)
    ensures Scan(judge, line, 0, []) == Ok(Some([Assign(k, line[0]), Assign(k, line[1])]))
  {
    assert [] + [Assign(k, line[0])] + [Assign(k, line[1])] == [Assign(k, line[0]), Assign(k, line[1])];
  }

  /** The field verdicts of that example. */
  lemma RepeatedVerdicts(ext: Foreign)
    ensures var judge := Judge(ext, Overwrite, map[], ["$a", "$a", "x", "y"], ["1", "2", "x", "y"]);
      judge(0) == Ok(Bind("a")) && judge(1) == Ok(Bind("a")) && judge(2) == Ok(Pass) && judge(3) == Ok(Pass)
  {
    VariableField(ext, Overwrite, map[], "$a", "1");
    VariableField(ext, Overwrite, map[], "$a", "2");
    LiteralField(ext, Overwrite, map[], "x", "x");
    LiteralField(ext, Overwrite, map[], "y", "y");
    assert "$a"[1..] == "a";
  }

  // ---------------------------------------------------------------------------
  // What a line taken with `_adder` keeps satisfying as bindings accumulate.

  /** `big` holds every binding of `small`. */
  predicate Extends(big: Vars, small: Vars) {
    forall k :: k in small ==> k in big && big[k] == small[k]
  }

  /** No two `$`-fields of the spec bind the same name. */
  predicate NoRepeat(spec: Fields) {
    forall i, j :: 0 <= i < j < 4 && spec[i] != [] && spec[i][0] == '$' && spec[j] != [] && spec[j][0] == '$' ==>
      Decompose(spec[i]).0[1..] != Decompose(spec[j]).0[1..]
  }

  /** `line` is a line `match_spec` with `_adder` takes for `spec` under `vars`
      and whose bindings `vars` already holds: the spec itself (lines 113-117),
      or a line whose four fields pass with every held-back binding in `vars`. */
  predicate Fits(ext: Foreign, vars: Vars, spec: Fields, line: Fields) {
    line == spec ||
    (var c := CheckLine(ext, Overwrite, vars, spec, line);
     c.Ok? && c.value.Some? && forall a :: a in c.value.value ==> a.key in vars && vars[a.key] == Scalar(a.value))
  }

  /** The field loop only consults the verdicts of the four fields. */
  lemma {:induction false} ScanAgree(j1: nat -> Result<Verdict>, j2: nat -> Result<Verdict>, line: Fields, idx: nat, pending: seq<Assign>)
    requires idx <= 4 && forall j :: idx <= j < 4 ==> j1(j) == j2(j)
    ensures Scan(j1, line, idx, pending) == Scan(j2, line, idx, pending)
    decreases 4 - idx
  {
    if idx < 4 && j1(idx).Ok? {
      ScanAgree(j1, j2, line, idx + 1, NextPending(j1(idx).value, line[idx], pending));
    }
  }

  /** With `_adder`, a field verdict that lets the loop go on is the same under
      any dictionary that holds the field's value for the name it binds. */
  lemma FieldStable(ext: Foreign, vars: Vars, vars2: Vars, sf: string, v: string)
    requires Accepts(FieldCheck(ext, Overwrite, vars, sf, v))
    requires FieldCheck(ext, Overwrite, vars, sf, v).value.Bind? ==>
      var k := FieldCheck(ext, Overwrite, vars, sf, v).value.key; k in vars2 ==> vars2[k] == Scalar(v)
    ensures FieldCheck(ext, Overwrite, vars2, sf, v) == FieldCheck(ext, Overwrite, vars, sf, v)
  {
    var d := Decompose(sf);
    var probe := ProbeCall(ext, v, d.1).value;
    ConcludeStable(vars, vars2, sf, v, d.0, d.1, probe);
  }

  /** The same for the verdict once the call syntax has been probed. */
  lemma ConcludeStable(vars: Vars, vars2: Vars, sf: string, v: string, name: string, func: string, probe: Probe)
    requires name != []
    requires Conclude(Overwrite, vars, sf, v, name, func, probe) != Reject
    requires Conclude(Overwrite, vars, sf, v, name, func, probe).Bind? ==>
      var k := Conclude(Overwrite, vars, sf, v, name, func, probe).key; k in vars2 ==> vars2[k] == Scalar(v)
    ensures Conclude(Overwrite, vars2, sf, v, name, func, probe) == Conclude(Overwrite, vars, sf, v, name, func, probe)
  {
    var matched := probe.Holds? && probe.b;
    if !(probe.Holds? && probe.b && name == func) && !(name == func && !matched && probe != NotACall) {
      assert Conclude(Overwrite, vars, sf, v, name, func, probe) == Settle(Overwrite, vars, sf, v, name, func, matched);
      assert Conclude(Overwrite, vars2, sf, v, name, func, probe) == Settle(Overwrite, vars2, sf, v, name, func, matched);
    }
  }

  /** A line that passes under `vars` passes with the same bindings under any
      dictionary in which each name it binds is unbound or holds its value. */
  lemma CheckStable(ext: Foreign, vars: Vars, vars2: Vars, spec: Fields, line: Fields)
    requires CheckLine(ext, Overwrite, vars, spec, line).Ok? && CheckLine(ext, Overwrite, vars, spec, line).value.Some?
    requires forall a :: a in CheckLine(ext, Overwrite, vars, spec, line).value.value && a.key in vars2 ==> vars2[a.key] == Scalar(a.value)
    ensures CheckLine(ext, Overwrite, vars2, spec, line) == CheckLine(ext, Overwrite, vars, spec, line)
  {
    var judge := Judge(ext, Overwrite, vars, spec, line);
    var judge2 := Judge(ext, Overwrite, vars2, spec, line);
    FitsIffAllAccept(judge, line, 0, []);
    forall j | 0 <= j < 4
      ensures judge2(j) == judge(j)
    {
      assert Accepts(judge(j));
      if judge(j).value.Bind? {
        HeldBinding(judge, line, j, judge(j).value.key);
      }
      FieldStable(ext, vars, vars2, spec[j], line[j]);
    }
    ScanAgree(judge, judge2, line, 0, []);
  }

  /** A fitting line keeps fitting as the dictionary grows. */
  lemma FitsExtend(ext: Foreign, vars: Vars, vars2: Vars, spec: Fields, line: Fields)
    requires Fits(ext, vars, spec, line) && Extends(vars2, vars)
    ensures Fits(ext, vars2, spec, line)
  {
    if line != spec {
      CheckStable(ext, vars, vars2, spec, line);
    }
  }

  /** With `_adder`, storing bindings that all give `k` the value `v` leaves `k`
      holding `v`. */
  lemma {:induction false} CommitSameValue(vars: Vars, held: seq<Assign>, k: string, v: string)
    requires k in HeldKeys(held) && forall i :: 0 <= i < |held| && held[i].key == k ==> held[i].value == v
    ensures k in Commit(Overwrite, vars, held).vars && Commit(Overwrite, vars, held).vars[k] == Scalar(v)
    decreases |held|
  {
    var next := Store(Overwrite, vars, held[0].key, held[0].value).value;
    assert Commit(Overwrite, vars, held) == Commit(Overwrite, next, held[1..]);
    HeldKeysSplit(held);
    forall i | 0 <= i < |held| - 1 && held[1..][i].key == k
      ensures held[1..][i].value == v
    {
      assert held[1..][i] == held[i + 1];
    }
    if k in HeldKeys(held[1..]) {
      CommitSameValue(next, held[1..], k, v);
    } else {
      CommitOverwriteFrame(next, held[1..]);
    }
  }

  /** With `_adder` and a spec that binds each name once, the bindings held
      for a passing line agree with the dictionary and with each other. */
  lemma HeldConsistent(ext: Foreign, vars: Vars, spec: Fields, line: Fields)
    requires NoRepeat(spec)
    requires CheckLine(ext, Overwrite, vars, spec, line).Ok? && CheckLine(ext, Overwrite, vars, spec, line).value.Some?
    ensures var held := CheckLine(ext, Overwrite, vars, spec, line).value.value;
      forall i :: 0 <= i < |held| ==>
        && (held[i].key in vars ==> vars[held[i].key] == Scalar(held[i].value))
        && forall i2 :: 0 <= i2 < |held| && held[i2].key == held[i].key ==> held[i2].value == held[i].value
  {
    var judge := Judge(ext, Overwrite, vars, spec, line);
    var held := CheckLine(ext, Overwrite, vars, spec, line).value.value;
    HeldSound(judge, line, 0, []);
    forall i | 0 <= i < |held|
      ensures held[i].key in vars ==> vars[held[i].key] == Scalar(held[i].value)
      ensures forall i2 :: 0 <= i2 < |held| && held[i2].key == held[i].key ==> held[i2].value == held[i].value
    {
      var j :| 0 <= j < 4 && judge(j) == Ok(Bind(held[i].key)) && held[i].value == line[j];
      JudgeBinds(ext, Overwrite, vars, spec, line, j);
      forall i2 | 0 <= i2 < |held| && held[i2].key == held[i].key
        ensures held[i2].value == held[i].value
      {
        var j2 :| 0 <= j2 < 4 && judge(j2) == Ok(Bind(held[i2].key)) && held[i2].value == line[j2];
        JudgeBinds(ext, Overwrite, vars, spec, line, j2);
        assert j2 == j;
      }
    }
  }

  /** With `_adder` and a spec that binds each name once, a line `match_spec`
      takes fits its spec under the new dictionary, which keeps every binding
      of the old one. */
  lemma MatchFits(ext: Foreign, vars: Vars, spec: Fields, lines: seq<Fields>)
    requires NoRepeat(spec)
    ensures var st := SpecMatch(ext, Overwrite, vars, spec, lines);
      Found(st) ==> Fits(ext, st.vars, spec, st.found.value.value) && Extends(st.vars, vars)
  {
    var st := SpecMatch(ext, Overwrite, vars, spec, lines);
    if Found(st) && spec !in lines {
      GeneralMatch(ext, Overwrite, vars, spec, lines);
      var check := LineCheck(ext, Overwrite, vars, spec);
      var i: nat :| FirstFit(check, Overwrite, vars, lines, 0, i) &&
        st == Step(Ok(Some(lines[i])), Commit(Overwrite, vars, check(lines[i]).value.value).vars, Remove(lines, i));
      TakenFits(ext, vars, spec, lines[i], check(lines[i]).value.value);
    }
  }

  /** With `_adder`, a passing line of a spec that binds each name once fits
      under the dictionary its bindings leave, which keeps every old binding. */
  lemma TakenFits(ext: Foreign, vars: Vars, spec: Fields, line: Fields, held: seq<Assign>)
    requires NoRepeat(spec) && CheckLine(ext, Overwrite, vars, spec, line) == Ok(Some(held))
    ensures Fits(ext, Commit(Overwrite, vars, held).vars, spec, line) && Extends(Commit(Overwrite, vars, held).vars, vars)
  {
    var after := Commit(Overwrite, vars, held).vars;
    HeldConsistent(ext, vars, spec, line);
    forall a | a in held
      ensures a.key in after && after[a.key] == Scalar(a.value)
    {
      var i :| 0 <= i < |held| && held[i] == a;
      CommitSameValue(vars, held, a.key, a.value);
    }
    CheckStable(ext, vars, after, spec, line);
    CommitOverwriteFrame(vars, held);
    forall k | k in vars
      ensures k in after && after[k] == vars[k]
    {
      if k in HeldKeys(held) {
        var i :| 0 <= i < |held| && held[i].key == k;
        assert held[i] in held;
      }
    }
  }


  // ---------------------------------------------------------------------------
  // Specs of three literals and one variable.

  /** A spec of three literal fields and a variable `$k` against a list whose
      first line carries the three literals, with `k` unbound or bound to that
      line's last field: that line is taken, `k` holds its last field and the
      line leaves the list. */
  lemma TaggedLine(ext: Foreign, vars: Vars, spec: Fields, lines: seq<Fields>, k: string)
    requires forall j :: 0 <= j < 3 ==> spec[j] != [] && spec[j][0] != '$' && spec[j][|spec[j]| - 1] != ')'
    requires spec[3] == "$" + k && k != [] && '=' !in k && k[|k| - 1] != ')'
    requires lines != [] && lines[0][..3] == spec[..3] && spec !in lines
    requires k in vars ==> vars[k] == Scalar(lines[0][3])
    ensures SpecMatch(ext, Overwrite, vars, spec, lines) == Step(Ok(Some(lines[0])), vars[k := Scalar(lines[0][3])], lines[1..])
  {
    var line := lines[0];
    var check := LineCheck(ext, Overwrite, vars, spec);
    var judge := Judge(ext, Overwrite, vars, spec, line);
    forall j | 0 <= j < 3
      ensures judge(j) == Ok(Pass)
    {
      assert line[j] == line[..3][j];
      LiteralField(ext, Overwrite, vars, spec[j], line[j]);
    }
    assert spec[3][1..] == k;
    VariableField(ext, Overwrite, vars, spec[3], line[3]);
    assert judge(3) == Ok(Bind(k));
    assert check(line) == Scan(judge, line, 0, []);
    assert Scan(judge, line, 0, []) == Ok(Some([Assign(k, line[3])]));
    var empty: seq<Assign> := [];
    assert Commit(Overwrite, vars, [Assign(k, line[3])]) == Commit(Overwrite, vars[k := Scalar(line[3])], empty);
    assert FirstFit(check, Overwrite, vars, lines, 0, 0);
    SearchTakesFirst(check, Overwrite, vars, lines, 0, 0);
  }

  /** A field loop whose four verdicts are all values raises nothing. */
  lemma {:induction false} ScanOk(judge: nat -> Result<Verdict>, line: Fields, idx: nat, pending: seq<Assign>)
    requires idx <= 4 && forall j :: idx <= j < 4 ==> judge(j).Ok?
    ensures Scan(judge, line, idx, pending).Ok?
    decreases 4 - idx
  {
    if idx < 4 {
      ScanOk(judge, line, idx + 1, NextPending(judge(idx).value, line[idx], pending));
    }
  }

  /** The same spec against a line that misses one of the literals, or whose
      last field differs from the value `k` holds: the line fails. */
  lemma TaggedReject(ext: Foreign, vars: Vars, spec: Fields, line: Fields, k: string)
    requires forall j :: 0 <= j < 3 ==> spec[j] != [] && spec[j][0] != '$' && spec[j][|spec[j]| - 1] != ')'
    requires spec[3] == "$" + k && k != [] && '=' !in k && k[|k| - 1] != ')'
    requires line[..3] != spec[..3] || (k in vars && vars[k] != Scalar(line[3]))
    ensures CheckLine(ext, Overwrite, vars, spec, line) == Ok(None)
  {
    var judge := Judge(ext, Overwrite, vars, spec, line);
    forall j | 0 <= j < 3
      ensures judge(j) == Ok(if line[j] == spec[j] then Pass else Reject)
    {
      LiteralField(ext, Overwrite, vars, spec[j], line[j]);
    }
    assert spec[3][1..] == k;
    VariableField(ext, Overwrite, vars, spec[3], line[3]);
    ScanOk(judge, line, 0, []);
    FitsIffAllAccept(judge, line, 0, []);
    if line[..3] != spec[..3] {
      var j :| 0 <= j < 3 && line[..3][j] != spec[..3][j];
      assert !Accepts(judge(j));
    } else {
      assert !Accepts(judge(3));
    }
  }

  // ---------------------------------------------------------------------------
  // The mutable state of `match_spec`: the line list and the dictionary.

  /** A list of lines that `match_spec` edits in place. */
  class Pool {
    var lines: seq<Fields>

    constructor(lines: seq<Fields>)
      ensures this.lines == lines
    {
      this.lines := lines;
    }

    /** `del lines[i]`. */
    method Delete(i: nat)
      requires i < |lines|
      modifies this
      ensures lines == Remove(old(lines), i)
    {
      lines := Remove(lines, i);
    }
  }

  /** A variable dictionary that the adders update in place. */
  class Env {
    var vars: Vars

    constructor(vars: Vars)
      ensures this.vars == vars
    {
      this.vars := vars;
    }

    /** `_adder(arr, key, value)`. */
    method Add(key: string, value: string)
      modifies this
      ensures Store(Overwrite, old(vars), key, value) == Ok(vars)
    {
      vars := vars[key := Scalar(value)];
    }

    /** `_appender(arr, key, value)`; the exception it raises is returned and
        the dictionary is then unchanged. */
    method Append(key: string, value: string) returns (err: Option<PyError>)
      modifies this
      ensures var st := Store(Mode.Append, old(vars), key, value);
        if st.Ok? then vars == st.value && err.None? else vars == old(vars) && err == Some(st.error)
    {
      if key !in vars {
        vars := vars[key := List([value])];
        err := None;
      } else if vars[key].List? {
        vars := vars[key := List(vars[key].items + [value])];
        err := None;
      } else {
        err := Some(AttributeError);
      }
    }

    /** Lines 153-154: `adder(arr, var, line[i])` for each held-back binding,
        stopping at the first exception. */
    method StoreAll(mode: Mode, held: seq<Assign>) returns (err: Option<PyError>)
      modifies this
      ensures Commit(mode, old(vars), held) == Applied(vars, err)
    {
      var i := 0;
      while i < |held|
        invariant 0 <= i <= |held|
        invariant Commit(mode, old(vars), held) == Commit(mode, vars, held[i..])
      {
        assert held[i..][1..] == held[i + 1..];
        if mode == Overwrite {
          Add(held[i].key, held[i].value);
        } else {
          var e := Append(held[i].key, held[i].value);
          if e.Some? {
            return e;
          }
        }
        i := i + 1;
      }
      return None;
    }
  }

  /** One turn of the field loop: a rejecting field ends it, any other goes
      on to the next field with its binding held back. */
  lemma ScanNext(judge: nat -> Result<Verdict>, line: Fields, idx: nat, held: seq<Assign>, v: Verdict)
    requires idx < 4 && judge(idx) == Ok(v)
    ensures Scan(judge, line, idx, held) ==
      if v.Reject? then Ok(None) else Scan(judge, line, idx + 1, NextPending(v, line[idx], held))
  {
  }

  /** Lines 121-152: the four fields of `line` checked in order, bindings held
      back, the loop broken by the first field that fails. */
  method CheckFields(ext: Foreign, mode: Mode, vars: Vars, spec: Fields, line: Fields)
    returns (r: Result<Option<seq<Assign>>>)
    ensures r == CheckLine(ext, mode, vars, spec, line)
  {
    ghost var judge := Judge(ext, mode, vars, spec, line);
    var held: seq<Assign> := [];
    var idx := 0;
    while idx < 4
      invariant 0 <= idx <= 4
      invariant CheckLine(ext, mode, vars, spec, line) == Scan(judge, line, idx, held)
    {
      var verdict := FieldCheck(ext, mode, vars, spec[idx], line[idx]);
      assert verdict == judge(idx);
      if verdict.Raise? {
        return Raise(verdict.error);
      }
      ScanNext(judge, line, idx, held, verdict.value);
      if verdict.value.Reject? {
        return Ok(None);
      }
      held := NextPending(verdict.value, line[idx], held);
      idx := idx + 1;
    }
    return Ok(Some(held));
  }

  /** `match_spec(spec, lines, arr, adder)` on the list `pool` and the
      dictionary `env`. */
  method MatchSpec(ext: Foreign, mode: Mode, spec: Fields, pool: Pool, env: Env) returns (r: Result<Option<Fields>>)
    modifies pool, env
    ensures Step(r, env.vars, pool.lines) == SpecMatch(ext, mode, old(env.vars), spec, old(pool.lines))
  {
    var idx := 0;
    while idx < |pool.lines|
      invariant 0 <= idx <= |pool.lines|
      invariant spec !in pool.lines[..idx]
    {
      if pool.lines[idx] == spec {
        var res := pool.lines[idx];
        pool.Delete(idx);
        return Ok(Some(res));
      }
      assert pool.lines[..idx + 1] == pool.lines[..idx] + [pool.lines[idx]];
      idx := idx + 1;
    }
    assert pool.lines[..idx] == pool.lines;
    r := SearchPool(ext, mode, spec, pool, env);
  }

  /** The field-by-field search of `match_spec` (lines 118-158) on the list
      `pool` and the dictionary `env`. */
  method SearchPool(ext: Foreign, mode: Mode, spec: Fields, pool: Pool, env: Env) returns (r: Result<Option<Fields>>)
    modifies pool, env
    ensures Step(r, env.vars, pool.lines) ==
      SearchFrom(LineCheck(ext, mode, old(env.vars), spec), mode, old(env.vars), old(pool.lines), 0)
  {
    ghost var check := LineCheck(ext, mode, env.vars, spec);
    var lidx := 0;
    while lidx < |pool.lines|
      invariant 0 <= lidx <= |pool.lines|
      invariant pool.lines == old(pool.lines) && env.vars == old(env.vars)
      invariant SearchFrom(check, mode, env.vars, pool.lines, 0) == SearchFrom(check, mode, env.vars, pool.lines, lidx)
    {
      var line := pool.lines[lidx];
      var c := CheckFields(ext, mode, env.vars, spec, line);
      assert c == check(line);
      match c {
        case Raise(e) => return Raise(e);
        case Ok(None) =>
          SearchSkip(check, mode, env.vars, pool.lines, lidx);
        case Ok(Some(held)) =>
          var err := env.StoreAll(mode, held);
          if err.Some? {
            return Raise(err.value);
          }
          SearchHit(check, mode, old(env.vars), pool.lines, lidx);
          pool.Delete(lidx);
          return Ok(Some(line));
      }
      lidx := lidx + 1;
    }
    return Ok(None);
  }

  // ---------------------------------------------------------------------------
  // `match_multiple`.

  /** What `match_multiple` leaves behind: its result and the dictionary. */
  datatype Gathered = Gathered(result: Result<bool>, vars: Vars)

  /** Lines 212-215 from a remaining private pool `lines`, with `ret` telling
      whether some line matched already: `match_spec` with `_appender` until it
      returns `False`. Each round deletes one line, so the rounds end. */
  function Multiple(ext: Foreign, vars: Vars, spec: Fields, lines: seq<Fields>, ret: bool): (r: Gathered)
    ensures r.result.Ok? && !r.result.value ==> !ret
    decreases |lines|
  {
    var st := SpecMatch(ext, Append, vars, spec, lines);
    match st.found
    case Raise(e) => Gathered(Raise(e), st.vars)
    case Ok(None) => Gathered(Ok(ret), st.vars)
    case Ok(Some(_)) => Multiple(ext, st.vars, spec, st.lines, true)
  }

  /** `match_multiple` returns `False` exactly when the first `match_spec`
      returns `False`, and then leaves the dictionary as it was; when the
      first round matches, the result is `True` unless an exception ends a
      later round. */
  lemma MultipleFalseIff(ext: Foreign, vars: Vars, spec: Fields, lines: seq<Fields>)
    ensures var r := Multiple(ext, vars, spec, lines, false);
      && (r.result == Ok(false) <==> SpecMatch(ext, Append, vars, spec, lines).found == Ok(None))
      && (r.result == Ok(false) ==> r.vars == vars)
      && (Found(SpecMatch(ext, Append, vars, spec, lines)) ==> r.result != Ok(false))
  {
    var st := SpecMatch(ext, Append, vars, spec, lines);
    if Found(st) {
      assert Multiple(ext, vars, spec, lines, false) == Multiple(ext, st.vars, spec, st.lines, true);
    }
  }

  /** Once a round has matched, the result stays `True` unless an exception is
      raised. */
  lemma {:induction false} MultipleKeepsTrue(ext: Foreign, vars: Vars, spec: Fields, lines: seq<Fields>)
    ensures Multiple(ext, vars, spec, lines, true).result != Ok(false)
    decreases |lines|
  {
    var st := SpecMatch(ext, Append, vars, spec, lines);
    if Found(st) {
      MultipleKeepsTrue(ext, st.vars, spec, st.lines);
    }
  }

  /** With `_appender` no field consults the dictionary (line 147 guards only
      `_adder`), so a field's verdict does not depend on it. */
  lemma AppendFieldFree(ext: Foreign, vars: Vars, vars2: Vars, sf: string, v: string)
    ensures FieldCheck(ext, Append, vars2, sf, v) == FieldCheck(ext, Append, vars, sf, v)
  {
    if sf != [] {
      var d := Decompose(sf);
      if d.1 != [] && ProbeCall(ext, v, d.1).Ok? {
        var probe := ProbeCall(ext, v, d.1).value;
        assert Settle(Append, vars2, sf, v, d.0, d.1, false) == Settle(Append, vars, sf, v, d.0, d.1, false);
        assert Settle(Append, vars2, sf, v, d.0, d.1, true) == Settle(Append, vars, sf, v, d.0, d.1, true);
        assert Conclude(Append, vars2, sf, v, d.0, d.1, probe) == Conclude(Append, vars, sf, v, d.0, d.1, probe);
      }
    }
  }

  /** With `_appender`, whether a line passes, and the bindings it records, do
      not depend on the dictionary. */
  lemma AppendCheckFree(ext: Foreign, vars: Vars, vars2: Vars, spec: Fields, line: Fields)
    ensures CheckLine(ext, Append, vars2, spec, line) == CheckLine(ext, Append, vars, spec, line)
  {
    var judge := Judge(ext, Append, vars, spec, line);
    var judge2 := Judge(ext, Append, vars2, spec, line);
    forall j | 0 <= j < 4
      ensures judge(j) == judge2(j)
    {
      AppendFieldFree(ext, vars, vars2, spec[j], line[j]);
    }
    ScanAgree(judge, judge2, line, 0, []);
  }

  /** The bindings stored when `match_spec` with `_appender` takes `line`: none
      for a line equal to the spec, else the ones its fields record. */
  function Held(ext: Foreign, spec: Fields, line: Fields): seq<Assign> {
    if line == spec then []
    else match CheckLine(ext, Append, map[], spec, line)
      case Ok(Some(held)) => held
      case _ => []
  }

  /** A line `match_spec` with `_appender` can take: one equal to the spec, or
      one whose four fields pass. */
  predicate Takes(ext: Foreign, spec: Fields, line: Fields) {
    line == spec || (CheckLine(ext, Append, map[], spec, line).Ok? && CheckLine(ext, Append, map[], spec, line).value.Some?)
  }

  /** The values the lines of `taken` give the variable `k`, in order. */
  function Gained(ext: Foreign, spec: Fields, taken: seq<Fields>, k: string): seq<string>
    decreases |taken|
  {
    if taken == [] then [] else ValuesOf(Held(ext, spec, taken[0]), k) + Gained(ext, spec, taken[1..], k)
  }

  /** The entry of `k`, if any. */
  function Entry(vars: Vars, k: string): Option<Binding> {
    if k in vars then Some(vars[k]) else None
  }

  /** The entry of `k` once `_appender` has appended `vs` to it: unchanged for
      no values, else the list it held (or a new one) extended by `vs`. */
  function Grown(vars: Vars, k: string, vs: seq<string>): Option<Binding> {
    if vs == [] then Entry(vars, k) else Some(List(Items(vars, k) + vs))
  }

  /** Appending `a` and then `b` appends `a + b`. */
  lemma GrownTwice(vars: Vars, mid: Vars, after: Vars, k: string, a: seq<string>, b: seq<string>)
    requires Entry(mid, k) == Grown(vars, k, a) && Entry(after, k) == Grown(mid, k, b)
    ensures Entry(after, k) == Grown(vars, k, a + b)
  {
    if b == [] {
      assert a + b == a;
    } else if a == [] {
      assert Items(mid, k) == Items(vars, k);
      assert a + b == b;
    } else {
      assert mid[k] == List(Items(vars, k) + a);
      Assoc(Items(vars, k), a, b);
    }
  }

  /** With `_appender`, storing that raises nothing appends to each variable
      the values `held` gives it, and binds none that holds a single text. */
  lemma {:induction false} CommitGrows(vars: Vars, held: seq<Assign>, k: string)
    requires Commit(Append, vars, held).error.None?
    ensures Entry(Commit(Append, vars, held).vars, k) == Grown(vars, k, ValuesOf(held, k))
    ensures k in vars && vars[k].Scalar? ==> ValuesOf(held, k) == []
    decreases |held|
  {
    if held != [] {
      assert Store(Append, vars, held[0].key, held[0].value).Ok?;
      var next := Store(Append, vars, held[0].key, held[0].value).value;
      assert Commit(Append, vars, held) == Commit(Append, next, held[1..]);
      CommitGrows(next, held[1..], k);
      ValuesOfHead(held, k);
      if held[0].key == k {
        assert Items(vars, k) + [held[0].value] == (if k in vars then vars[k].items else []) + [held[0].value];
        assert next[k] == List(Items(vars, k) + [held[0].value]);
        GrownTwice(vars, next, Commit(Append, vars, held).vars, k, [held[0].value], ValuesOf(held[1..], k));
      } else {
        assert ValuesOf(held, k) == ValuesOf(held[1..], k);
        assert Entry(next, k) == Entry(vars, k);
      }
    }
  }

  /** Every variable of `after` is that of `vars` with the values `held` gives
      it appended, and none that held a single text gained any. */
  ghost predicate GrowsBy(vars: Vars, after: Vars, held: seq<Assign>) {
    && (forall k :: Entry(after, k) == Grown(vars, k, ValuesOf(held, k)))
    && (forall k :: k in vars && vars[k].Scalar? ==> ValuesOf(held, k) == [])
  }

  /** A line `match_spec` with `_appender` finds is one it can take, and the
      dictionary gains exactly that line's values. */
  lemma MatchGrows(ext: Foreign, vars: Vars, spec: Fields, lines: seq<Fields>)
    requires Found(SpecMatch(ext, Append, vars, spec, lines))
    ensures var st := SpecMatch(ext, Append, vars, spec, lines); var line := st.found.value.value;
      Takes(ext, spec, line) && GrowsBy(vars, st.vars, Held(ext, spec, line))
  {
    if spec !in lines {
      GeneralMatch(ext, Append, vars, spec, lines);
      var check := LineCheck(ext, Append, vars, spec);
      var i: nat :| FirstFit(check, Append, vars, lines, 0, i) &&
        SpecMatch(ext, Append, vars, spec, lines) ==
          Step(Ok(Some(lines[i])), Commit(Append, vars, check(lines[i]).value.value).vars, Remove(lines, i));
      TakenGrows(ext, vars, spec, lines[i], check(lines[i]).value.value);
    }
  }

  /** A line that passes and whose bindings store without an exception is one
      `match_spec` can take, and the dictionary gains exactly its values. */
  lemma TakenGrows(ext: Foreign, vars: Vars, spec: Fields, line: Fields, held: seq<Assign>)
    requires line != spec && CheckLine(ext, Append, vars, spec, line) == Ok(Some(held))
    requires Commit(Append, vars, held).error.None?
    ensures Takes(ext, spec, line) && GrowsBy(vars, Commit(Append, vars, held).vars, Held(ext, spec, line))
  {
    AppendCheckFree(ext, map[], vars, spec, line);
    forall k {
      CommitGrows(vars, held, k);
    }
  }

  /** The lines a run of `match_multiple` has taken and the ones it left, for a
      run that raised nothing: together they are the pool; the result says
      whether any was taken; each taken line could be taken; every variable
      gained exactly the values of the taken lines, in order, and none that
      held a single text gained any; and no remaining line matches. */
  ghost predicate GatheredBy(ext: Foreign, vars: Vars, spec: Fields, lines: seq<Fields>, ret: bool, r: Gathered, taken: seq<Fields>, rest: seq<Fields>) {
    && multiset(taken) + multiset(rest) == multiset(lines)
    && r.result == Ok(ret || taken != [])
    && (forall i :: 0 <= i < |taken| ==> Takes(ext, spec, taken[i]))
    && (forall k :: Entry(r.vars, k) == Grown(vars, k, Gained(ext, spec, taken, k)))
    && (forall k :: k in vars && vars[k].Scalar? ==> Gained(ext, spec, taken, k) == [])
    && spec !in rest
    && (forall i :: 0 <= i < |rest| ==> CheckLine(ext, Append, r.vars, spec, rest[i]) == Ok(None))
  }

  /** A round that takes `line` puts it in front of the lines the later rounds
      take. */
  lemma GatherStep(ext: Foreign, vars: Vars, mid: Vars, spec: Fields, lines: seq<Fields>, left: seq<Fields>, line: Fields,
                   ret: bool, r: Gathered, taken: seq<Fields>, rest: seq<Fields>)
    requires multiset(left) + multiset{line} == multiset(lines)
    requires Takes(ext, spec, line) && GrowsBy(vars, mid, Held(ext, spec, line))
    requires GatheredBy(ext, mid, spec, left, true, r, taken, rest)
    ensures GatheredBy(ext, vars, spec, lines, ret, r, [line] + taken, rest)
  {
    var all := [line] + taken;
    assert all[1..] == taken;
    forall k
      ensures Entry(r.vars, k) == Grown(vars, k, Gained(ext, spec, all, k))
      ensures k in vars && vars[k].Scalar? ==> Gained(ext, spec, all, k) == []
    {
      GrownTwice(vars, mid, r.vars, k, ValuesOf(Held(ext, spec, line), k), Gained(ext, spec, taken, k));
    }
    forall i | 0 <= i < |all| ensures Takes(ext, spec, all[i]) {
      if i > 0 { assert all[i] == taken[i - 1]; }
    }
    assert multiset(all) == multiset{line} + multiset(taken);
  }

  /** A first round that finds nothing ends the run, taking no line. */
  lemma GatherNone(ext: Foreign, vars: Vars, spec: Fields, lines: seq<Fields>, ret: bool)
    requires SpecMatch(ext, Append, vars, spec, lines).found == Ok(None)
    ensures GatheredBy(ext, vars, spec, lines, ret, Multiple(ext, vars, spec, lines, ret), [], lines)
  {
    NoMatchIff(ext, Append, vars, spec, lines);
    assert Multiple(ext, vars, spec, lines, ret) == Gathered(Ok(ret), vars);
  }

  /** The lines the rounds of `match_multiple` take, in order, and the pool
      they leave. */
  function Rounds(ext: Foreign, vars: Vars, spec: Fields, lines: seq<Fields>): (seq<Fields>, seq<Fields>)
    decreases |lines|
  {
    var st := SpecMatch(ext, Append, vars, spec, lines);
    if Found(st) then
      var more := Rounds(ext, st.vars, spec, st.lines);
      ([st.found.value.value] + more.0, more.1)
    else ([], lines)
  }

  /** Lines 212-215: a run of `match_multiple` that raises nothing splits the
      pool into the lines its rounds took and the lines left, as `GatheredBy`
      describes. */
  lemma {:induction false} MultipleGathers(ext: Foreign, vars: Vars, spec: Fields, lines: seq<Fields>, ret: bool)
    ensures var r := Multiple(ext, vars, spec, lines, ret); var split := Rounds(ext, vars, spec, lines);
      r.result.Ok? ==> GatheredBy(ext, vars, spec, lines, ret, r, split.0, split.1)
    decreases |lines|
  {
    var r := Multiple(ext, vars, spec, lines, ret);
    var st := SpecMatch(ext, Append, vars, spec, lines);
    if st.found == Ok(None) {
      GatherNone(ext, vars, spec, lines, ret);
    } else if Found(st) {
      assert r == Multiple(ext, st.vars, spec, st.lines, true);
      MultipleGathers(ext, st.vars, spec, st.lines, true);
      if r.result.Ok? {
        MatchGrows(ext, vars, spec, lines);
        var more := Rounds(ext, st.vars, spec, st.lines);
        GatherStep(ext, vars, st.vars, spec, lines, st.lines, st.found.value.value, ret, r, more.0, more.1);
      }
    }
  }

  /** `match_multiple(lines, spec, arr)`: the caller's list is copied first, so
      it is never shortened; only the dictionary changes. */
  method MatchMultiple(ext: Foreign, spec: Fields, pool: Pool, env: Env) returns (r: Result<bool>)
    modifies env
    ensures Gathered(r, env.vars) == Multiple(ext, old(env.vars), spec, pool.lines, false)
    ensures var split := Rounds(ext, old(env.vars), spec, pool.lines);
      r.Ok? ==> GatheredBy(ext, old(env.vars), spec, pool.lines, false, Gathered(r, env.vars), split.0, split.1)
  {
    MultipleGathers(ext, env.vars, spec, pool.lines, false);
    var ret := false;
    var copy := new Pool(pool.lines);
    while true
      invariant fresh(copy)
      invariant Multiple(ext, old(env.vars), spec, pool.lines, false) == Multiple(ext, env.vars, spec, copy.lines, ret)
      decreases |copy.lines|
    {
      ghost var before := copy.lines;
      var m := MatchSpec(ext, Append, spec, copy, env);
      match m {
        case Raise(e) => return Raise(e);
        case Ok(None) => return Ok(ret);
        case Ok(Some(_)) =>
      }
      assert |copy.lines| < |before|;
      ret := true;
    }
  }
}
