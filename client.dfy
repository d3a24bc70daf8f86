/** `generate_filename_and_macs`, a client of the matcher: it names a machine
    after its DMI product name and serial number and the first MAC address in
    its hardware list. */
module Client {
  import opened Outcomes
  import opened Text
  import opened Matcher
  import Expr

  const VendorSpec: Fields := ["system", "product", "vendor", "$sysprodvendor"]
  const NameSpec: Fields := ["system", "product", "name", "$sysprodname"]
  const SerialSpec: Fields := ["system", "product", "serial", "$sysserial"]
  const MacSpec: Fields := ["network", "$eth", "serial", "$serial"]

  /** `sysvars[key]` where a string is expected: a missing key raises
      `KeyError`, and a list is refused by `re.sub` with `TypeError`. */
  function StringAt(vars: Vars, key: string): (r: Result<string>)
    ensures r.Ok? <==> key in vars && vars[key].Scalar?
    ensures r.Ok? ==> r.value == vars[key].s
  {
    if key !in vars then Raise(KeyError)
    else match vars[key]
      case Scalar(s) => Ok(s)
      case List(_) => Raise(TypeError)
  }

  /** `re.sub("\\W+", "", sysvars[key]) + "-"`. */
  function Tag(vars: Vars, key: string): (r: Result<string>)
    ensures r.Ok? <==> key in vars && vars[key].Scalar?
    ensures r.Ok? ==> r.value == WordChars(vars[key].s) + "-"
  {
    var s :- StringAt(vars, key);
    Ok(WordChars(s) + "-")
  }

  /** `sysvars["serial"][0]`: the first MAC address gathered, or the first
      character of a string. */
  function FirstSerial(vars: Vars): (r: Result<string>)
    ensures r.Ok? ==> "serial" in vars
    ensures r.Ok? && vars["serial"].List? ==> |vars["serial"].items| > 0 && r.value == vars["serial"].items[0]
  {
    if "serial" !in vars then Raise(KeyError)
    else match vars["serial"]
      case List(items) => if items == [] then Raise(IndexError) else Ok(items[0])
      case Scalar(s) => if s == [] then Raise(IndexError) else Ok([s[0]])
  }

  /** The dictionary and the remaining hardware list between the steps. */
  datatype Stage = Stage(vars: Vars, lines: seq<Fields>)

  /** One `if match_spec(spec, hw_items, sysvars):` step (lines 229-234): when a
      line matches, the word characters of the bound `key` and a `-` are
      appended to `sysname` (`keep`) or replace it. */
  function Identify(ext: Expr.Foreign, st: Stage, spec: Fields, key: string, keep: bool): (r: Result<Stage>)
    ensures r.Ok? ==> r.value.lines == SpecMatch(ext, Overwrite, st.vars, spec, st.lines).lines
  {
    var m := SpecMatch(ext, Overwrite, st.vars, spec, st.lines);
    match m.found
    case Raise(e) => Raise(e)
    case Ok(None) => Ok(Stage(m.vars, m.lines))
    case Ok(Some(_)) =>
      var base :- if keep then StringAt(m.vars, "sysname") else Ok("");
      var tag :- Tag(m.vars, key);
      Ok(Stage(m.vars["sysname" := Scalar(base + tag)], m.lines))
  }

  /** The last step (lines 235-238): when `match_multiple` gathers MAC
      addresses, the first one with `:` turned into `-` ends `sysname`. */
  function AddMac(ext: Expr.Foreign, st: Stage): (r: Result<Vars>)
  {
    var g := Multiple(ext, st.vars, MacSpec, st.lines, false);
    match g.result
    case Raise(e) => Raise(e)
    case Ok(false) => Ok(g.vars)
    case Ok(true) =>
      var base :- StringAt(g.vars, "sysname");
      var mac :- FirstSerial(g.vars);
      Ok(g.vars["sysname" := Scalar(base + ReplaceChar(mac, ':', '-'))])
  }

  /** `generate_filename_and_macs(items)`. Line 233 assigns where the other
      steps append, so the vendor's part is dropped whenever a product name
      is found. */
  function FilenameAndMacs(ext: Expr.Foreign, items: seq<Fields>): Result<Vars> {
    var s1 :- Identify(ext, Stage(map["sysname" := Scalar("")], items), VendorSpec, "sysprodvendor", true);
    var s2 :- Identify(ext, s1, NameSpec, "sysprodname", false);
    var s3 :- Identify(ext, s2, SerialSpec, "sysserial", true);
    AddMac(ext, s3)
  }

  /** One step on the hardware list `hw` and the dictionary `sysvars`; an
      exception is returned. */
  method IdentifyStep(ext: Expr.Foreign, hw: Pool, sysvars: Env, spec: Fields, key: string, keep: bool)
    returns (err: Option<PyError>)
    modifies hw, sysvars
    ensures var r := Identify(ext, Stage(old(sysvars.vars), old(hw.lines)), spec, key, keep);
      if r.Ok? then err.None? && sysvars.vars == r.value.vars && hw.lines == r.value.lines else err == Some(r.error)
  {
    var found := MatchSpec(ext, Overwrite, spec, hw, sysvars);
    match found {
      case Raise(e) =>
        return Some(e);
      case Ok(None) =>
        return None;
      case Ok(Some(_)) =>
        var base := "";
        if keep {
          var b := StringAt(sysvars.vars, "sysname");
          if b.Raise? {
            return Some(b.error);
          }
          base := b.value;
        }
        var tag := Tag(sysvars.vars, key);
        if tag.Raise? {
          return Some(tag.error);
        }
        sysvars.vars := sysvars.vars["sysname" := Scalar(base + tag.value)];
        return None;
    }
  }

  /** `generate_filename_and_macs(items)` on the caller's list, which it
      copies first. */
  method GenerateFilenameAndMacs(ext: Expr.Foreign, items: Pool) returns (r: Result<Vars>)
    ensures r == FilenameAndMacs(ext, items.lines)
  {
    var hw := new Pool(items.lines);
    var sysvars := new Env(map["sysname" := Scalar("")]);
    var err := IdentifyStep(ext, hw, sysvars, VendorSpec, "sysprodvendor", true);
    if err.Some? {
      return Raise(err.value);
    }
    ghost var s1 := Stage(sysvars.vars, hw.lines);
    err := IdentifyStep(ext, hw, sysvars, NameSpec, "sysprodname", false);
    if err.Some? {
      return Raise(err.value);
    }
    ghost var s2 := Stage(sysvars.vars, hw.lines);
    err := IdentifyStep(ext, hw, sysvars, SerialSpec, "sysserial", true);
    if err.Some? {
      return Raise(err.value);
    }
    ghost var s3 := Stage(sysvars.vars, hw.lines);
    Chain(ext, items.lines, s1, s2, s3);
    r := MacStep(ext, hw, sysvars);
  }

  /** Lines 235-238 on the hardware list `hw` and the dictionary `sysvars`. */
  method MacStep(ext: Expr.Foreign, hw: Pool, sysvars: Env) returns (r: Result<Vars>)
    modifies sysvars
    ensures r == AddMac(ext, Stage(old(sysvars.vars), hw.lines))
  {
    var gathered := MatchMultiple(ext, MacSpec, hw, sysvars);
    match gathered {
      case Raise(e) =>
        return Raise(e);
      case Ok(false) =>
        return Ok(sysvars.vars);
      case Ok(true) =>
        var base := StringAt(sysvars.vars, "sysname");
        if base.Raise? {
          return Raise(base.error);
        }
        var mac := FirstSerial(sysvars.vars);
        if mac.Raise? {
          return Raise(mac.error);
        }
        return Ok(sysvars.vars["sysname" := Scalar(base.value + ReplaceChar(mac.value, ':', '-'))]);
    }
  }

  // ---------------------------------------------------------------------------
  // Properties.

  /** A `$`-field without `=` names its variable directly. */
  lemma PlainDecompose(sf: string)
    requires sf != [] && sf[0] == '$' && '=' !in sf
    ensures Decompose(sf) == (sf, sf)
  {
  }

  /** A spec whose `$`-fields are plain variable names other than `k` does
      not bind `k`. */
  lemma Unbound(spec: Fields, k: string)
    requires forall j :: 0 <= j < 4 && spec[j] != [] && spec[j][0] == '$' ==> '=' !in spec[j] && spec[j][1..] != k
    ensures k !in SpecKeys(spec)
  {
    forall j | 0 <= j < 4 && spec[j] != [] && spec[j][0] == '$'
      ensures Decompose(spec[j]).0[1..] != k
    {
      PlainDecompose(spec[j]);
    }
  }

  /** The DMI specs do not bind `sysname`. */
  lemma VendorUnbound()
    ensures "sysname" !in SpecKeys(VendorSpec)
  {
    Unbound(VendorSpec, "sysname");
  }

  lemma NameUnbound()
    ensures "sysname" !in SpecKeys(NameSpec)
  {
    Unbound(NameSpec, "sysname");
  }

  lemma SerialUnbound()
    ensures "sysname" !in SpecKeys(SerialSpec)
  {
    Unbound(SerialSpec, "sysname");
  }

  /** The MAC address spec does not bind `sysname`. */
  lemma MacUnbound()
    ensures "sysname" !in SpecKeys(MacSpec)
  {
    Unbound(MacSpec, "sysname");
  }

  /** `match_multiple` changes no variable but those its spec names. */
  lemma {:induction false} MultipleFrame(ext: Expr.Foreign, vars: Vars, spec: Fields, lines: seq<Fields>, ret: bool)
    ensures var r := Multiple(ext, vars, spec, lines, ret).vars;
      forall k :: k in vars && k !in SpecKeys(spec) ==> k in r && r[k] == vars[k]
    decreases |lines|
  {
    SpecMatchFrame(ext, Append, vars, spec, lines);
    var st := SpecMatch(ext, Append, vars, spec, lines);
    if Found(st) {
      MultipleFrame(ext, st.vars, spec, st.lines, true);
    }
  }

  /** `sysname` is a string without `:`. */
  predicate Clean(vars: Vars) {
    "sysname" in vars && vars["sysname"].Scalar? && ':' !in vars["sysname"].s
  }

  lemma IdentifyClean(ext: Expr.Foreign, st: Stage, spec: Fields, key: string, keep: bool)
    requires Clean(st.vars) && "sysname" !in SpecKeys(spec)
    ensures var r := Identify(ext, st, spec, key, keep); r.Ok? ==> Clean(r.value.vars)
  {
    SpecMatchFrame(ext, Overwrite, st.vars, spec, st.lines);
    var r := Identify(ext, st, spec, key, keep);
    var m := SpecMatch(ext, Overwrite, st.vars, spec, st.lines);
    if r.Ok? && Found(m) {
      var tag := Tag(m.vars, key).value;
      assert ':' !in tag by {
        assert forall i :: 0 <= i < |tag| - 1 ==> IsWordChar(tag[i]);
      }
    }
  }

  /** Ending a name free of `:` with an address whose `:` were turned into
      `-` keeps it free of `:`. */
  lemma DashedClean(base: string, mac: string)
    requires ':' !in base
    ensures ':' !in base + ReplaceChar(mac, ':', '-')
  {
    var dashed := ReplaceChar(mac, ':', '-');
    forall i | 0 <= i < |base + dashed|
      ensures (base + dashed)[i] != ':'
    {
      if i >= |base| {
        assert (base + dashed)[i] == dashed[i - |base|];
      }
    }
  }

  lemma AddMacClean(ext: Expr.Foreign, st: Stage)
    requires Clean(st.vars)
    ensures var r := AddMac(ext, st); r.Ok? ==> Clean(r.value)
  {
    MacUnbound();
    MultipleFrame(ext, st.vars, MacSpec, st.lines, false);
    var g := Multiple(ext, st.vars, MacSpec, st.lines, false);
    if g.result == Ok(true) && AddMac(ext, st).Ok? {
      var base := st.vars["sysname"].s;
      assert g.vars["sysname"] == Scalar(base);
      var mac := FirstSerial(g.vars).value;
      var dashed := ReplaceChar(mac, ':', '-');
      DashedClean(base, mac);
      assert AddMac(ext, st).value == g.vars["sysname" := Scalar(base + dashed)];
    }
  }

  /** The generated name never holds a `:`: the DMI strings keep only their
      word characters and the MAC address has its `:` turned into `-`. */
  lemma NoColon(ext: Expr.Foreign, items: seq<Fields>)
    ensures var r := FilenameAndMacs(ext, items); r.Ok? ==> Clean(r.value)
  {
    var s0 := Stage(map["sysname" := Scalar("")], items);
    VendorUnbound();
    IdentifyClean(ext, s0, VendorSpec, "sysprodvendor", true);
    var s1 := Identify(ext, s0, VendorSpec, "sysprodvendor", true);
    if s1.Ok? {
      NameUnbound();
      IdentifyClean(ext, s1.value, NameSpec, "sysprodname", false);
      var s2 := Identify(ext, s1.value, NameSpec, "sysprodname", false);
      if s2.Ok? {
        SerialUnbound();
        IdentifyClean(ext, s2.value, SerialSpec, "sysserial", true);
        var s3 := Identify(ext, s2.value, SerialSpec, "sysserial", true);
        if s3.Ok? {
          AddMacClean(ext, s3.value);
          assert FilenameAndMacs(ext, items) == AddMac(ext, s3.value);
        }
      }
    }
  }

  /** A string of word characters is kept whole. */
  lemma {:induction false} WordCharsKeep(s: string)
    requires forall i :: 0 <= i < |s| ==> IsWordChar(s[i])
    ensures WordChars(s) == s
  {
    if s != [] {
      WordCharsKeep(s[1..]);
    }
  }

  /** A step whose spec takes the first line, with `sysname` and the step's
      variable as given, and a value made of word characters. */
  lemma StepTakesFirst(ext: Expr.Foreign, vars: Vars, spec: Fields, lines: seq<Fields>, key: string, keep: bool)
    requires forall j :: 0 <= j < 3 ==> spec[j] != [] && spec[j][0] != '$' && spec[j][|spec[j]| - 1] != ')'
    requires spec[3] == "$" + key && key != [] && '=' !in key && key[|key| - 1] != ')' && key !in vars
    requires lines != [] && lines[0][..3] == spec[..3] && spec !in lines && key != "sysname"
    requires "sysname" in vars && vars["sysname"].Scalar?
    requires forall i :: 0 <= i < |lines[0][3]| ==> IsWordChar(lines[0][3][i])
    ensures Identify(ext, Stage(vars, lines), spec, key, keep) ==
      Ok(Stage(vars[key := Scalar(lines[0][3])]["sysname" := Scalar((if keep then vars["sysname"].s else "") + lines[0][3] + "-")], lines[1..]))
  {
    TaggedLine(ext, vars, spec, lines, key);
    WordCharsKeep(lines[0][3]);
    var m := vars[key := Scalar(lines[0][3])];
    assert Tag(m, key) == Ok(lines[0][3] + "-");
    var base := if keep then vars["sysname"].s else "";
    assert (if keep then StringAt(m, "sysname") else Ok("")) == Ok(base);
    assert base + (lines[0][3] + "-") == base + lines[0][3] + "-";
  }

  /** The three steps in sequence, then the MAC step. */
  lemma Chain(ext: Expr.Foreign, items: seq<Fields>, a: Stage, b: Stage, c: Stage)
    requires Identify(ext, Stage(map["sysname" := Scalar("")], items), VendorSpec, "sysprodvendor", true) == Ok(a)
    requires Identify(ext, a, NameSpec, "sysprodname", false) == Ok(b)
    requires Identify(ext, b, SerialSpec, "sysserial", true) == Ok(c)
    ensures FilenameAndMacs(ext, items) == AddMac(ext, c)
  {
  }

  /** With the hardware list used up, the last two steps change nothing. */
  lemma NothingLeft(ext: Expr.Foreign, vars: Vars)
    ensures Identify(ext, Stage(vars, []), SerialSpec, "sysserial", true) == Ok(Stage(vars, []))
    ensures AddMac(ext, Stage(vars, [])) == Ok(vars)
  {
    assert Multiple(ext, vars, MacSpec, [], false) == Gathered(Ok(false), vars);
  }

  /** Solver helper: neither line of the example below is the vendor spec
      itself. */
  lemma VendorNotLine(vendor: Fields, name: Fields)
    requires vendor[..3] == VendorSpec[..3] && name[..3] == NameSpec[..3]
    requires forall i :: 0 <= i < |vendor[3]| ==> IsWordChar(vendor[3][i])
    ensures VendorSpec !in [vendor, name]
  {
    assert VendorSpec[2] != name[..3][2];
    assert vendor[3] == [] || vendor[3][0] != VendorSpec[3][0];
  }

  /** Solver helper: the product name line is not the product name spec
      itself. */
  lemma NameNotLine(name: Fields)
    requires forall i :: 0 <= i < |name[3]| ==> IsWordChar(name[3][i])
    ensures NameSpec !in [name]
  {
    assert name[3] == [] || name[3][0] != NameSpec[3][0];
  }

  /** The vendor step of the example below. */
  lemma VendorStep(ext: Expr.Foreign, vendor: Fields, name: Fields)
    requires vendor[..3] == VendorSpec[..3] && name[..3] == NameSpec[..3]
    requires forall i :: 0 <= i < |vendor[3]| ==> IsWordChar(vendor[3][i])
    ensures Identify(ext, Stage(map["sysname" := Scalar("")], [vendor, name]), VendorSpec, "sysprodvendor", true)
      == Ok(Stage(map["sysname" := Scalar("")]["sysprodvendor" := Scalar(vendor[3])]["sysname" := Scalar(vendor[3] + "-")], [name]))
  {
    var v0: Vars := map["sysname" := Scalar("")];
    assert VendorSpec[3] == "$" + "sysprodvendor";
    VendorNotLine(vendor, name);
    StepTakesFirst(ext, v0, VendorSpec, [vendor, name], "sysprodvendor", true);
    assert [vendor, name][1..] == [name];
    assert "" + vendor[3] + "-" == vendor[3] + "-";
  }

  /** The product name step of the example below. */
  lemma NameStep(ext: Expr.Foreign, vars: Vars, name: Fields)
    requires name[..3] == NameSpec[..3] && "sysname" in vars && vars["sysname"].Scalar? && "sysprodname" !in vars
    requires forall i :: 0 <= i < |name[3]| ==> IsWordChar(name[3][i])
    ensures Identify(ext, Stage(vars, [name]), NameSpec, "sysprodname", false)
      == Ok(Stage(vars["sysprodname" := Scalar(name[3])]["sysname" := Scalar(name[3] + "-")], []))
  {
    assert NameSpec[3] == "$" + "sysprodname";
    NameNotLine(name);
    StepTakesFirst(ext, vars, NameSpec, [name], "sysprodname", false);
    assert [name][1..] == [];
    assert "" + name[3] + "-" == name[3] + "-";
  }

  /** An inventory of a DMI vendor line and a product name line, both values
      made of word characters: the name is the product name and a `-`, the
      vendor having been overwritten at line 233 (while it stays bound). */
  lemma VendorOverwritten(ext: Expr.Foreign, vendor: Fields, name: Fields)
    requires vendor[..3] == VendorSpec[..3] && name[..3] == NameSpec[..3]
    requires forall i :: 0 <= i < |vendor[3]| ==> IsWordChar(vendor[3][i])
    requires forall i :: 0 <= i < |name[3]| ==> IsWordChar(name[3][i])
    ensures var r := FilenameAndMacs(ext, [vendor, name]);
      && r.Ok? && "sysname" in r.value && r.value["sysname"] == Scalar(name[3] + "-")
      && "sysprodvendor" in r.value && r.value["sysprodvendor"] == Scalar(vendor[3])
  {
    var v1 := map["sysname" := Scalar("")]["sysprodvendor" := Scalar(vendor[3])]["sysname" := Scalar(vendor[3] + "-")];
    VendorStep(ext, vendor, name);
    NameStep(ext, v1, name);
    var v2 := v1["sysprodname" := Scalar(name[3])]["sysname" := Scalar(name[3] + "-")];
    NothingLeft(ext, v2);
    Chain(ext, [vendor, name], Stage(v1, [name]), Stage(v2, []), Stage(v2, []));
  }

  /** An inventory holding the vendor spec itself as a line: the line is
      taken as it is, binds nothing, and reading `sysprodvendor` raises
      `KeyError`. */
  lemma LiteralSpecLine(ext: Expr.Foreign)
    ensures FilenameAndMacs(ext, [VendorSpec]) == Raise(KeyError)
  {
    assert Find([VendorSpec], VendorSpec) == Some(0);
  }
}
