/**
 * The sidebar context commands: menu items whose settings name a command
 * to run on the files and folders selected in the sidebar.  Modelled here:
 * the visibility test with its length conditions, the lookup of a command's
 * settings in the platform's exec map, and the commands `run` launches.
 */
module SidebarCommands {
  import opened Wrappers
  import opened Strings
  import opened Seqs
  import Json

  // ----- int() on a string -----

  predicate IsDigit(c: char) { '0' <= c <= '9' }

  /** The digits of an int() literal: ASCII digits, single underscores allowed between two of them. */
  predicate DigitRun(d: string)
  {
    d != [] && IsDigit(d[0]) && IsDigit(d[|d| - 1])
    && (forall i :: 0 <= i < |d| ==> IsDigit(d[i]) || d[i] == '_')
    && (forall i :: 0 <= i < |d| - 1 ==> d[i] == '_' ==> d[i + 1] != '_')
  }

  /** The decimal value of the digits, underscores skipped. */
  function DigitsValue(d: string): nat
    decreases |d|
  {
    if d == [] then 0
    else if IsDigit(d[|d| - 1]) then DigitsValue(d[..|d| - 1]) * 10 + (d[|d| - 1] as int - '0' as int)
    else DigitsValue(d[..|d| - 1])
  }

  /**
   * int(s) in base 10: surrounding whitespace is ignored, then an optional
   * sign and a digit run; None where Python raises ValueError.
   */
  function ParseInt(s: string): Option<int>
  {
    Literal(Strip(s))
  }

  /** A stripped int() literal: an optional sign, then a digit run. */
  function Literal(t: string): (n: Option<int>)
    ensures n.Some? && t != [] && IsDigit(t[0]) ==> n.value >= 0
  {
    if t != [] && (t[0] == '+' || t[0] == '-') then
      if !DigitRun(t[1..]) then None
      else if t[0] == '-' then Some(-(DigitsValue(t[1..]) as int))
      else Some(DigitsValue(t[1..]))
    else if DigitRun(t) then Some(DigitsValue(t))
    else None
  }

  lemma DigitCharValue(d: nat)
    requires d < 10
    ensures DigitChar(d) as int - '0' as int == d
  {
    assert "0123456789abcdef"[d] as int == '0' as int + d by {
      if d < 5 {
        assert d == 0 || d == 1 || d == 2 || d == 3 || d == 4;
      } else {
        assert d == 5 || d == 6 || d == 7 || d == 8 || d == 9;
      }
    }
  }

  lemma {:induction false} NatToStringValue(n: nat)
    ensures DigitsValue(NatToString(n)) == n
    decreases n
  {
    var s := NatToString(n);
    DigitCharValue(n % 10);
    if n >= 10 {
      NatToStringValue(n / 10);
      assert s[..|s| - 1] == NatToString(n / 10);
    } else {
      assert s[..|s| - 1] == [];
    }
  }

  /** int() reads back what str() writes. */
  lemma ParseIntToString(i: int)
    ensures ParseInt(IntToString(i)) == Some(i)
  {
    var s := IntToString(i);
    LiteralToString(i);
    StripUnchanged(s);
  }

  lemma LiteralToString(i: int)
    ensures var s := IntToString(i); s != [] && !IsSpace(s[0]) && !IsSpace(s[|s| - 1])
    ensures Literal(IntToString(i)) == Some(i)
  {
    var n: nat := if i < 0 then -i else i;
    var d := NatToString(n);
    LiteralOfDigits(d);
    NatToStringValue(n);
    var s := IntToString(i);
    if i < 0 {
      assert s == "-" + d && s[|s| - 1] == d[|d| - 1];
      assert s[1..] == d;
    }
  }

  /** A run of plain digits reads as its decimal value. */
  lemma LiteralOfDigits(d: string)
    requires d != [] && forall i :: 0 <= i < |d| ==> '0' <= d[i] <= '9'
    ensures DigitRun(d) && Literal(d) == Some(DigitsValue(d))
  {
  }

  // ----- is_correct_length -----

  /** The comparisons a condition may use: "<=", ">=" and "!=". */
  datatype Op = Le | Ge | Ne

  function Token(op: Op): (t: string)
    ensures |t| == 2 && t[1] == '='
  {
    match op
    case Le => "<="
    case Ge => ">="
    case Ne => "!="
  }

  function Compare(op: Op, val: int, n: int): bool
  {
    match op
    case Le => val <= n
    case Ge => val >= n
    case Ne => val != n
  }

  /** The operations in the order the outer loop tries them. */
  const Operations: seq<Op> := [Le, Ge, Ne]

  /** The first index of `o` in `s`: the test `o in s` and where str.split cuts. */
  function Find(s: string, o: string): (k: Option<nat>)
    requires o != []
    ensures k.Some? ==> k.value + |o| <= |s|
    decreases |s|
  {
    if |s| < |o| then None
    else if s[..|o|] == o then Some(0)
    else
      var k := Find(s[1..], o);
      if k.None? then None else Some(k.value + 1)
  }

  /** `o` occurs in `s` at index j. */
  predicate At(s: string, o: string, j: int)
  {
    0 <= j && j + |o| <= |s| && s[j..j + |o|] == o
  }

  /** Find gives the first occurrence, and None exactly when there is none. */
  lemma {:induction false} FindFirst(s: string, o: string)
    requires o != []
    ensures var k := Find(s, o); k.Some? ==> At(s, o, k.value)
    ensures var k := Find(s, o); k.Some? ==> forall j :: 0 <= j < k.value ==> !At(s, o, j)
    ensures Find(s, o).None? ==> forall j :: !At(s, o, j)
    decreases |s|
  {
    if |s| >= |o| {
      assert s[0..|o|] == s[..|o|];
      if s[..|o|] != o {
        FindFirst(s[1..], o);
        forall j | 1 <= j ensures At(s, o, j) == At(s[1..], o, j - 1) {
          if j + |o| <= |s| {
            SliceOfSlice(s, 1, |s|, j - 1, j - 1 + |o|);
            assert s[1..] == s[1..|s|];
          }
        }
      }
    }
  }

  /**
   * `_, c_val = c.split(o)`: the text after the only occurrence of `o`;
   * None when `o` occurs more than once, so that the unpacking raises.
   */
  function AfterOnly(s: string, o: string): (r: Option<string>)
    requires o != [] && Find(s, o).Some?
  {
    var rest := s[Find(s, o).value + |o|..];
    if Find(rest, o).Some? then None else Some(rest)
  }

  /** What one (operation, condition) step of the nested loops does. */
  datatype Outcome = Skip | Fail | Check(holds: bool)

  /**
   * One step: `o in c` skips absent operations (a list or an object holding
   * the operation cannot be split, and `in` on a number, a bool or null
   * raises); a present one is split off and parsed, and compared.
   */
  function Evaluate(op: Op, val: int, c: Json.Value): (r: Outcome)
  {
    var o := Token(op);
    match c
    case Str(s) =>
      if Find(s, o).None? then Skip
      else (match AfterOnly(s, o)
        case None => Fail
        case Some(p) =>
          (match ParseInt(p)
           case None => Fail
           case Some(n) => Check(Compare(op, val, n))))
    case List(xs) => if Json.Str(o) in xs then Fail else Skip
    case Object(m) => if o in m then Fail else Skip
    case _ => Fail
  }

  /** The steps of the inner loop, over the conditions, for one operation. */
  function Row(op: Op, val: int, conds: seq<Json.Value>): (r: seq<Outcome>)
    ensures |r| == |conds| && forall j :: 0 <= j < |conds| ==> r[j] == Evaluate(op, val, conds[j])
  {
    if conds == [] then [] else [Evaluate(op, val, conds[0])] + Row(op, val, conds[1..])
  }

  /** The steps of both loops, operation by operation. */
  function Steps(ops: seq<Op>, val: int, conds: seq<Json.Value>): seq<Outcome>
  {
    if ops == [] then [] else Row(ops[0], val, conds) + Steps(ops[1..], val, conds)
  }

  /** all(cnds) after the loops: the checks made before the first step that raises. */
  function AllBeforeFail(outs: seq<Outcome>): bool
  {
    if outs == [] then true
    else match outs[0]
      case Skip => AllBeforeFail(outs[1..])
      case Fail => true
      case Check(b) => b && AllBeforeFail(outs[1..])
  }

  /** is_correct_length: equality for an integer, the gathered conjunction for a list. */
  function CorrectLength(val: int, conditions: Json.Value): bool
    requires conditions.Int? || conditions.List?
  {
    if conditions.Int? then val == conditions.i
    else AllBeforeFail(Steps(Operations, val, conditions.items))
  }

  function All(bs: seq<bool>): (r: bool)
    ensures r <==> forall i :: 0 <= i < |bs| ==> bs[i]
  {
    if bs == [] then true else bs[0] && All(bs[1..])
  }

  lemma {:induction false} AllSnoc(bs: seq<bool>, b: bool)
    ensures All(bs + [b]) == (All(bs) && b)
  {
    assert forall i :: 0 <= i < |bs| ==> (bs + [b])[i] == bs[i];
    assert (bs + [b])[|bs|] == b;
  }

  lemma {:induction false} StepsAppend(a: seq<Outcome>, b: seq<Outcome>)
    requires forall i :: 0 <= i < |a| ==> !a[i].Fail?
    ensures AllBeforeFail(a + b) == ((forall i :: 0 <= i < |a| && a[i].Check? ==> a[i].holds) && AllBeforeFail(b))
    decreases |a|
  {
    if a == [] {
      assert a + b == b;
    } else {
      assert (a + b)[0] == a[0];
      assert (a + b)[1..] == a[1..] + b;
      StepsAppend(a[1..], b);
      assert forall i :: 1 <= i < |a| ==> a[1..][i - 1] == a[i];
    }
  }

  /** The three passes of the outer loop. */
  lemma StepsOfOperations(val: int, conds: seq<Json.Value>)
    ensures Steps(Operations, val, conds) == Row(Le, val, conds) + (Row(Ge, val, conds) + (Row(Ne, val, conds) + []))
  {
    assert Operations[1..] == [Ge, Ne] && [Ge, Ne][1..] == [Ne] && [Ne][1..] == [];
    assert Steps([Ne], val, conds) == Row(Ne, val, conds) + [];
    assert Steps([Ge, Ne], val, conds) == Row(Ge, val, conds) + Steps([Ne], val, conds);
  }

  /**
   * is_correct_length: the nested loops append each comparison to `cnds`,
   * and an error in a condition ends both loops; all(cnds) is returned.
   */
  method IsCorrectLength(val: int, conditions: Json.Value) returns (r: bool)
    requires conditions.Int? || conditions.List?
    ensures r == CorrectLength(val, conditions)
  {
    if conditions.Int? {
      return val == conditions.i;
    }
    var conds := conditions.items;
    ghost var goal := AllBeforeFail(Steps(Operations, val, conds));
    var cnds: seq<bool> := [];
    var oi := 0;
    while oi < |Operations|
      invariant 0 <= oi <= |Operations|
      invariant goal == (All(cnds) && AllBeforeFail(Steps(Operations[oi..], val, conds)))
    {
      assert Operations[oi..][1..] == Operations[oi + 1..];
      var failed;
      cnds, failed := Pass(Operations[oi], val, conds, cnds, Steps(Operations[oi + 1..], val, conds));
      if failed {
        return All(cnds);
      }
      oi := oi + 1;
    }
    return All(cnds);
  }

  /**
   * The inner loop for one operation: `failed` when a condition raised.
   * Continuing with `later` steps, the pass keeps the value the loops reach.
   */
  method Pass(op: Op, val: int, conds: seq<Json.Value>, cnds0: seq<bool>, ghost later: seq<Outcome>)
      returns (cnds: seq<bool>, failed: bool)
    ensures (All(cnds0) && AllBeforeFail(Row(op, val, conds) + later))
         == (if failed then All(cnds) else All(cnds) && AllBeforeFail(later))
  {
    cnds := cnds0;
    ghost var goal := All(cnds0) && AllBeforeFail(Row(op, val, conds) + later);
    var j := 0;
    assert conds[j..] == conds;
    while j < |conds|
      invariant 0 <= j <= |conds|
      invariant goal == (All(cnds) && AllBeforeFail(Row(op, val, conds[j..]) + later))
    {
      RowCons(op, val, conds, j, later);
      var step := Step(op, val, conds[j]);
      match step {
        case Fail =>
          return cnds, true;
        case Skip =>
        case Check(b) =>
          AllSnoc(cnds, b);
          cnds := cnds + [b];
      }
      j := j + 1;
    }
    assert conds[|conds|..] == [];
    assert Row(op, val, conds[j..]) + later == later;
    failed := false;
  }

  lemma RowCons(op: Op, val: int, conds: seq<Json.Value>, j: nat, later: seq<Outcome>)
    requires j < |conds|
    ensures var rest := Row(op, val, conds[j + 1..]) + later;
      AllBeforeFail(Row(op, val, conds[j..]) + later) == match Evaluate(op, val, conds[j])
        case Skip => AllBeforeFail(rest)
        case Fail => true
        case Check(b) => b && AllBeforeFail(rest)
  {
    assert conds[j..][1..] == conds[j + 1..];
    var x := [Evaluate(op, val, conds[j])] + (Row(op, val, conds[j + 1..]) + later);
    assert Row(op, val, conds[j..]) + later == x;
    assert x[1..] == Row(op, val, conds[j + 1..]) + later;
  }

  /** The body of the inner loop: `if o in c`, the split, int() and the comparison. */
  method Step(op: Op, val: int, c: Json.Value) returns (r: Outcome)
    ensures r == Evaluate(op, val, c)
  {
    var o := Token(op);
    match c {
      case Str(s) =>
        var k := Find(s, o);
        if k.None? {
          return Skip;
        }
        var rest := AfterOnly(s, o);
        if rest.None? {
          return Fail;
        }
        var n := ParseInt(rest.value);
        if n.None? {
          return Fail;
        }
        r := Check(Compare(op, val, n.value));
      case List(xs) =>
        r := if Json.Str(o) in xs then Fail else Skip;
      case Object(m) =>
        r := if o in m then Fail else Skip;
      case _ =>
        r := Fail;
    }
  }

  /** With no condition that raises, the result is exactly the conjunction of the comparisons made. */
  lemma WellFormedConditions(val: int, conds: seq<Json.Value>)
    requires forall op, j :: 0 <= j < |conds| ==> !Evaluate(op, val, conds[j]).Fail?
    ensures CorrectLength(val, Json.List(conds)) <==>
      forall op, j :: 0 <= j < |conds| && Evaluate(op, val, conds[j]).Check? ==> Evaluate(op, val, conds[j]).holds
  {
    var r0 := Row(Le, val, conds);
    var r1 := Row(Ge, val, conds);
    var r2 := Row(Ne, val, conds);
    StepsOfOperations(val, conds);
    StepsAppend(r2, []);
    StepsAppend(r1, r2 + []);
    StepsAppend(r0, r1 + (r2 + []));
    forall op: Op, j | 0 <= j < |conds| && Evaluate(op, val, conds[j]).Check? && CorrectLength(val, Json.List(conds))
      ensures Evaluate(op, val, conds[j]).holds
    {
      match op {
        case Le => assert r0[j] == Evaluate(op, val, conds[j]);
        case Ge => assert r1[j] == Evaluate(op, val, conds[j]);
        case Ne => assert r2[j] == Evaluate(op, val, conds[j]);
      }
    }
  }

  /** No condition, visible: all([]) is True. */
  lemma NoConditions(val: int)
    ensures CorrectLength(val, Json.List([]))
  {
    StepsOfOperations(val, []);
  }

  /** An operation absent from a three-character string condition is skipped. */
  lemma Absent(op: Op, val: int, s: string)
    requires |s| == 3
    requires s[0] != Token(op)[0] || s[1] != '='
    requires s[1] != Token(op)[0] || s[2] != '='
    ensures Evaluate(op, val, Json.Str(s)) == Skip
  {
    var o := Token(op);
    assert !At(s, o, 0) by { assert s[0..2][0] == s[0] && s[0..2][1] == s[1]; }
    assert !At(s, o, 1) by { assert s[1..3][0] == s[1] && s[1..3][1] == s[2]; }
    FindFirst(s, o);
  }

  /** int() of one digit. */
  lemma ParseDigit(d: char)
    requires IsDigit(d)
    ensures ParseInt([d]) == Some(d as int - '0' as int)
  {
    StripUnchanged([d]);
    LiteralOfDigits([d]);
    assert [d][..0] == [];
  }

  /** "<=n" and the like, for a digit n, compare with n. */
  lemma Present(op: Op, val: int, d: char)
    requires IsDigit(d)
    ensures Evaluate(op, val, Json.Str(Token(op) + [d])) == Check(Compare(op, val, d as int - '0' as int))
  {
    var o := Token(op);
    var s := o + [d];
    assert s[..2] == o;
    assert Evaluate(op, val, Json.Str(s)) == (match AfterOnly(s, o)
        case None => Fail
        case Some(p) =>
          (match ParseInt(p)
           case None => Fail
           case Some(n) => Check(Compare(op, val, n)))) by {
      assert Find(s, o) == Some(0);
    }
    assert Find(s, o) == Some(0);
    assert s[2..] == [d];
    assert Find([d], o).None?;
    ParseDigit(d);
  }

  /** [">=a", "<=b"] for digits a and b: from a to b paths. */
  lemma Between(val: int, a: char, b: char)
    requires IsDigit(a) && IsDigit(b)
    ensures CorrectLength(val, Json.List([Json.Str(">=" + [a]), Json.Str("<=" + [b])]))
        <==> a as int - '0' as int <= val <= b as int - '0' as int
  {
    var conds := [Json.Str(Token(Ge) + [a]), Json.Str(Token(Le) + [b])];
    assert conds == [Json.Str(">=" + [a]), Json.Str("<=" + [b])];
    var r0 := Row(Le, val, conds);
    var r1 := Row(Ge, val, conds);
    var r2 := Row(Ne, val, conds);
    BetweenRows(val, a, b);
    StepsOfOperations(val, conds);
    TwoRows(r0, r1, r2);
    assert CorrectLength(val, Json.List(conds)) == AllBeforeFail(r0 + (r1 + (r2 + [])));
  }

  lemma TwoRows(r0: seq<Outcome>, r1: seq<Outcome>, r2: seq<Outcome>)
    requires |r0| == |r1| == |r2| == 2
    requires r0[0] == Skip && r0[1].Check? && r1[0].Check? && r1[1] == Skip && r2 == [Skip, Skip]
    ensures AllBeforeFail(r0 + (r1 + (r2 + []))) == (r0[1].holds && r1[0].holds)
  {
    StepsAppend(r2, []);
    StepsAppend(r1, r2 + []);
    StepsAppend(r0, r1 + (r2 + []));
  }

  lemma BetweenRows(val: int, a: char, b: char)
    requires IsDigit(a) && IsDigit(b)
    ensures var conds := [Json.Str(Token(Ge) + [a]), Json.Str(Token(Le) + [b])];
      Row(Le, val, conds) == [Skip, Check(val <= b as int - '0' as int)]
      && Row(Ge, val, conds) == [Check(val >= a as int - '0' as int), Skip]
      && Row(Ne, val, conds) == [Skip, Skip]
  {
    var ge := Token(Ge) + [a];
    var le := Token(Le) + [b];
    assert Token(Le) == ['<', '='] && Token(Ge) == ['>', '='] && Token(Ne) == ['!', '='];
    assert ge[0] == '>' && ge[1] == '=' && le[0] == '<' && le[1] == '=';
    Present(Ge, val, a);
    Present(Le, val, b);
    Absent(Le, val, ge);
    Absent(Ne, val, ge);
    Absent(Ge, val, le);
    Absent(Ne, val, le);
  }

  /** "x<=y" holds "<=" once, and "y" is not a number. */
  lemma Malformed(val: int)
    ensures Evaluate(Le, val, Json.Str("x<=y")) == Fail
  {
    SplitMalformed();
    NotANumber('y');
    assert "y" == ['y'];
  }

  lemma SplitMalformed()
    ensures Find("x<=y", "<=") == Some(1) && AfterOnly("x<=y", "<=") == Some("y")
  {
    var s := "x<=y";
    assert s[..2][0] == 'x';
    assert s[1..][..2] == ['<', '='] == "<=";
    assert s[3..] == ['y'] == "y";
  }

  /** A single character that is neither a digit, a sign nor whitespace is not an int() literal. */
  lemma NotANumber(c: char)
    requires !IsDigit(c) && c != '+' && c != '-' && !IsSpace(c)
    ensures ParseInt([c]).None?
  {
    var t := [c];
    StripUnchanged(t);
    assert t[0] == c;
    assert !DigitRun(t);
  }

  /**
   * An error stops the loops with what was gathered: the "<=" pass meets a
   * malformed condition before ">=a" is ever compared, so any length is
   * accepted (for instance with "x<=y", see Malformed).
   */
  lemma ErrorKeepsGathered(val: int, a: char, bad: string)
    requires IsDigit(a) && Evaluate(Le, val, Json.Str(bad)) == Fail
    ensures CorrectLength(val, Json.List([Json.Str(">=" + [a]), Json.Str(bad)]))
  {
    var conds := [Json.Str(Token(Ge) + [a]), Json.Str(bad)];
    Absent(Le, val, Token(Ge) + [a]);
    var r0 := Row(Le, val, conds);
    assert r0[0] == Skip && r0[1] == Fail;
    StepsOfOperations(val, conds);
    var all := r0 + (Row(Ge, val, conds) + (Row(Ne, val, conds) + []));
    assert all[0] == Skip && all[1..][0] == Fail;
  }

  // ----- The settings of a command -----

  /** _ody_get_defaults, with the expanded home directory as a parameter. */
  function Defaults(home: string): map<string, Json.Value>
  {
    map["cmd" := Json.Str(""), "args" := Json.List([]), "exec_once" := Json.Bool(false),
        "is_visible" := Json.Str("auto"), "allow_multiple" := Json.Bool(true),
        "report_stdout" := Json.Bool(false), "pass_path_to_cmd" := Json.Bool(false),
        "path_type" := Json.Str("both"), "working_directory" := Json.Str(home),
        "dry_run" := Json.Bool(false)]
  }

  /** The keys `run` and `is_visible` read without a default. */
  predicate Complete(m: map<string, Json.Value>)
  {
    "cmd" in m && "args" in m && "exec_once" in m && "is_visible" in m && "allow_multiple" in m
    && "pass_path_to_cmd" in m && "path_type" in m
  }

  /** merge_dict(defaults, entry), taken as a shallow merge: the entry's values win. */
  function Merge(defaults: map<string, Json.Value>, entry: map<string, Json.Value>): (r: map<string, Json.Value>)
    ensures r.Keys == defaults.Keys + entry.Keys
    ensures forall k :: k in entry ==> r[k] == entry[k]
    ensures forall k :: k in defaults && k !in entry ==> r[k] == defaults[k]
  {
    defaults + entry
  }

  /**
   * An exec-map entry `run` may use: it has a command, is not made
   * invisible with `false`, and its command can be executed.
   */
  predicate Usable(entry: map<string, Json.Value>, executable: Json.Value -> bool)
  {
    "cmd" in entry && Json.Get(entry, "is_visible", Json.Str("auto")) != Json.Bool(false)
    && executable(entry["cmd"])
  }

  /** The index of the first usable entry. */
  function FirstUsable(entries: seq<map<string, Json.Value>>, executable: Json.Value -> bool): (k: Option<nat>)
    ensures k.Some? ==> k.value < |entries| && Usable(entries[k.value], executable)
    ensures k.Some? ==> forall j :: 0 <= j < k.value ==> !Usable(entries[j], executable)
    ensures k.None? ==> forall j :: 0 <= j < |entries| ==> !Usable(entries[j], executable)
  {
    if entries == [] then None
    else if Usable(entries[0], executable) then Some(0)
    else
      var k := FirstUsable(entries[1..], executable);
      assert forall j :: 1 <= j < |entries| ==> entries[j] == entries[1..][j - 1];
      if k.None? then None else Some(k.value + 1)
  }

  /** Whether the settings of a command rule it out: no id, or `disabled`. */
  predicate Disabled(cmdId: Option<string>, cmdSettings: map<string, Json.Value>)
  {
    cmdId.None? || Json.Truthy(Json.Get(cmdSettings, "disabled", Json.Bool(false)))
  }

  /**
   * _ody_get_settings: the first usable entry of the platform's exec map,
   * merged over the defaults; None (the source's False) when the command is
   * disabled or no entry is usable.  `cmdSettings` are the settings under
   * the command's id, `entries` the exec map's list for this platform, and
   * `executable` stands for variable substitution and the can_exec/which test.
   */
  method GetSettings(cmdId: Option<string>, cmdSettings: map<string, Json.Value>,
                     entries: seq<map<string, Json.Value>>, executable: Json.Value -> bool, home: string)
      returns (merged: Option<map<string, Json.Value>>)
    ensures Disabled(cmdId, cmdSettings) ==> merged.None?
    ensures !Disabled(cmdId, cmdSettings) ==> merged == match FirstUsable(entries, executable)
      case None => None
      case Some(k) => Some(Merge(Defaults(home), entries[k]))
  {
    if cmdId.None? || Json.Truthy(Json.Get(cmdSettings, "disabled", Json.Bool(false))) {
      return None;
    }
    for i := 0 to |entries|
      invariant forall j :: 0 <= j < i ==> !Usable(entries[j], executable)
    {
      var entry := entries[i];
      if "cmd" !in entry || Json.Get(entry, "is_visible", Json.Str("auto")) == Json.Bool(false) {
        continue;
      }
      if executable(entry["cmd"]) {
        assert FirstUsable(entries, executable) == Some(i);
        return Some(Defaults(home) + entry);
      }
    }
    return None;
  }

  /** Every settings dictionary GetSettings returns has the keys `run` and `is_visible` read. */
  lemma MergedComplete(home: string, entry: map<string, Json.Value>)
    ensures Complete(Merge(Defaults(home), entry))
  {
  }

  // ----- Visibility -----

  /** The `dirs`, `files` and `paths` arguments the sidebar passes; a missing one is []. */
  datatype Selection = Selection(dirs: seq<string>, files: seq<string>, paths: seq<string>)

  /** The paths a command uses, by its `path_type`. */
  function PathsFor(pathType: Json.Value, sel: Selection): (p: seq<string>)
    ensures pathType == Json.Str("folder") ==> p == sel.dirs
    ensures pathType == Json.Str("file") ==> p == sel.files
    ensures pathType != Json.Str("folder") && pathType != Json.Str("file") ==> p == sel.paths
  {
    if pathType == Json.Str("folder") then sel.dirs
    else if pathType == Json.Str("file") then sel.files
    else sel.paths
  }

  /** is_visible: the menu item shows for these settings and this selection. */
  function IsVisible(settings: Option<map<string, Json.Value>>, sel: Selection): (v: bool)
    requires settings.Some? ==> Complete(settings.value)
    ensures settings.None? ==> !v
  {
    if settings.None? then false
    else
      var m := settings.value;
      var n := |PathsFor(m["path_type"], sel)|;
      match m["is_visible"]
      case Bool(b) => b
      case List(_) => CorrectLength(n, m["is_visible"])
      case Int(_) => CorrectLength(n, m["is_visible"])
      case _ => if Json.Truthy(m["allow_multiple"]) then n > 0 else n == 1
  }

  /**
   * The visibility rules over an exec-map entry: an explicit bool wins, a
   * list or a number tests the number of paths, and otherwise any non-empty
   * selection shows the item, or exactly one path without allow_multiple.
   */
  lemma VisibilityRules(home: string, entry: map<string, Json.Value>, sel: Selection)
    ensures var v := IsVisible(Some(Merge(Defaults(home), entry)), sel);
      var n := |PathsFor(Json.Get(entry, "path_type", Json.Str("both")), sel)|;
      && ("is_visible" in entry && entry["is_visible"].Bool? ==> v == entry["is_visible"].b)
      && ("is_visible" in entry && entry["is_visible"].Int? ==> (v <==> n == entry["is_visible"].i))
      && ("is_visible" in entry && entry["is_visible"] == Json.List([]) ==> v)
      && ("is_visible" !in entry && "allow_multiple" !in entry ==> (v <==> n > 0))
      && ("is_visible" !in entry && Json.Get(entry, "allow_multiple", Json.Bool(true)) == Json.Bool(false) ==> (v <==> n == 1))
  {
    NoConditions(|PathsFor(Json.Get(entry, "path_type", Json.Str("both")), sel)|);
  }

  // ----- The commands run launches -----

  /** What `run` does: a message for a missing command, a status for no paths, or the commands launched, in order. */
  datatype Launch = NoCommand | NoPaths | Launched(commands: seq<seq<Json.Value>>)

  /** The prefix pass_path_to_cmd puts before each path of a combined command. */
  function Prefix(passPath: Json.Value): string
  {
    if passPath.Str? then passPath.s else ""
  }

  /** The paths appended to the combined command, each with its prefix. */
  function PathArgs(prefix: string, paths: seq<string>): (r: seq<Json.Value>)
    ensures |r| == |paths| && forall i :: 0 <= i < |paths| ==> r[i] == Json.Str(prefix + paths[i])
  {
    if paths == [] then [] else PathArgs(prefix, paths[..|paths| - 1]) + [Json.Str(prefix + paths[|paths| - 1])]
  }

  /** One command per path: the command, the arguments substituted for that path, and the path itself when pass_path_to_cmd is true. */
  function PerPath(cmd: seq<Json.Value>, args: seq<Json.Value>, passPath: Json.Value, paths: seq<string>,
                   substitute: (seq<Json.Value>, string) -> seq<Json.Value>): (r: seq<seq<Json.Value>>)
    ensures |r| == |paths|
    ensures forall i :: 0 <= i < |paths| ==>
      r[i] == cmd + substitute(args, paths[i]) + (if passPath == Json.Bool(true) then [Json.Str(paths[i])] else [])
  {
    if paths == [] then []
    else
      var p := paths[|paths| - 1];
      PerPath(cmd, args, passPath, paths[..|paths| - 1], substitute)
        + [cmd + substitute(args, p) + (if passPath == Json.Bool(true) then [Json.Str(p)] else [])]
  }

  /** Whether the paths all go to one command. */
  predicate OnceForAll(m: map<string, Json.Value>)
    requires Complete(m)
  {
    Json.Truthy(m["exec_once"]) && Json.Truthy(m["allow_multiple"]) && Json.Truthy(m["pass_path_to_cmd"])
  }

  /**
   * The commands `run` launches for a non-empty list of paths: the combined
   * command alone, or one command per path followed, with exec_once, by the
   * command and its arguments once more.
   */
  function Launches(m: map<string, Json.Value>, cmd: seq<Json.Value>, paths: seq<string>,
                    substitute: (seq<Json.Value>, string) -> seq<Json.Value>): seq<seq<Json.Value>>
    requires Complete(m) && m["args"].List?
  {
    var args := m["args"].items;
    if OnceForAll(m) then [cmd + args + PathArgs(Prefix(m["pass_path_to_cmd"]), paths)]
    else
      PerPath(cmd, args, m["pass_path_to_cmd"], paths, substitute)
        + (if Json.Truthy(m["exec_once"]) then [cmd + args] else [])
  }

  /**
   * OdyseusExecCommandOnSidebarSelectionCommand.run: `expand` substitutes
   * the variables of the command, `substitute` those of the arguments for a
   * path.  Threads, processes, working directories and reports are not
   * modelled: a launch is its command line.
   */
  method Run(settings: Option<map<string, Json.Value>>, sel: Selection, expand: Json.Value -> Json.Value,
             substitute: (seq<Json.Value>, string) -> seq<Json.Value>) returns (l: Launch)
    requires settings.Some? ==> Complete(settings.value) && settings.value["args"].List?
    ensures settings.None? || !Json.Truthy(settings.value["cmd"]) <==> l.NoCommand?
    ensures l.NoPaths? <==> settings.Some? && Json.Truthy(settings.value["cmd"])
                            && PathsFor(settings.value["path_type"], sel) == []
    ensures l.Launched? ==> l.commands == Launches(settings.value, [expand(settings.value["cmd"])],
                                                  PathsFor(settings.value["path_type"], sel), substitute)
  {
    if settings.None? || !Json.Truthy(settings.value["cmd"]) {
      return NoCommand;
    }
    var m := settings.value;
    var cmd := [expand(m["cmd"])];
    var args := m["args"].items;
    var passPath := m["pass_path_to_cmd"];
    var execOnce := m["exec_once"];
    var selected := PathsFor(m["path_type"], sel);
    if selected == [] {
      return NoPaths;
    }
    var command := cmd + args;
    var launched: seq<seq<Json.Value>> := [];
    for i := 0 to |selected|
      invariant Building(m, cmd, selected[..i], substitute, command, launched)
    {
      assert selected[..i + 1][..i] == selected[..i] && selected[..i + 1][i] == selected[i];
      command, launched := AddPath(m, cmd, selected[..i], selected[i], substitute, command, launched);
      assert selected[..i] + [selected[i]] == selected[..i + 1];
    }
    assert selected[..|selected|] == selected;
    if Json.Truthy(execOnce) && command != [] {
      launched := launched + [command];
    }
    return Launched(launched);
  }

  /** The state of `run`'s loop after the paths `done`. */
  ghost predicate Building(m: map<string, Json.Value>, cmd: seq<Json.Value>, done: seq<string>,
                          substitute: (seq<Json.Value>, string) -> seq<Json.Value>,
                          command: seq<Json.Value>, launched: seq<seq<Json.Value>>)
    requires Complete(m) && m["args"].List?
  {
    var args := m["args"].items;
    var passPath := m["pass_path_to_cmd"];
    (OnceForAll(m) ==> command == cmd + args + PathArgs(Prefix(passPath), done) && launched == [])
    && (!OnceForAll(m) ==> command == cmd + args && launched == PerPath(cmd, args, passPath, done, substitute))
  }

  /** The body of `run`'s loop for one path. */
  method AddPath(m: map<string, Json.Value>, cmd: seq<Json.Value>, done: seq<string>, path: string,
                 substitute: (seq<Json.Value>, string) -> seq<Json.Value>,
                 command0: seq<Json.Value>, launched0: seq<seq<Json.Value>>)
      returns (command: seq<Json.Value>, launched: seq<seq<Json.Value>>)
    requires Complete(m) && m["args"].List?
    requires Building(m, cmd, done, substitute, command0, launched0)
    ensures Building(m, cmd, done + [path], substitute, command, launched)
  {
    var args := m["args"].items;
    var passPath := m["pass_path_to_cmd"];
    command, launched := command0, launched0;
    assert (done + [path])[..|done|] == done && (done + [path])[|done|] == path;
    if Json.Truthy(m["exec_once"]) && Json.Truthy(m["allow_multiple"]) && Json.Truthy(passPath) {
      var arg := Json.Str(Prefix(passPath) + path);
      assert PathArgs(Prefix(passPath), done + [path]) == PathArgs(Prefix(passPath), done) + [arg];
      if passPath.Str? {
        command := command + [Json.Str(passPath.s + path)];
      } else {
        assert "" + path == path;
        command := command + [Json.Str(path)];
      }
      assert OnceForAll(m) && command == command0 + [arg];
      assert command0 + [arg] == cmd + args + (PathArgs(Prefix(passPath), done) + [arg]);
    } else {
      var arguments := substitute(args, path);
      if passPath == Json.Bool(true) {
        arguments := arguments + [Json.Str(path)];
      }
      assert cmd + arguments == cmd + substitute(args, path) + (if passPath == Json.Bool(true) then [Json.Str(path)] else []);
      launched := launched + [cmd + arguments];
    }
  }

  /** The combined command: the command, its arguments, then every path in order, each after its prefix. */
  lemma CombinedCommand(m: map<string, Json.Value>, cmd: seq<Json.Value>, paths: seq<string>,
                        substitute: (seq<Json.Value>, string) -> seq<Json.Value>)
    requires Complete(m) && m["args"].List? && OnceForAll(m)
    ensures var ls := Launches(m, cmd, paths, substitute); var args := m["args"].items;
      |ls| == 1 && |ls[0]| == |cmd| + |args| + |paths|
      && ls[0][..|cmd| + |args|] == cmd + args
      && forall i :: 0 <= i < |paths| ==> ls[0][|cmd| + |args| + i] == Json.Str(Prefix(m["pass_path_to_cmd"]) + paths[i])
  {
    var args := m["args"].items;
    var pa := PathArgs(Prefix(m["pass_path_to_cmd"]), paths);
    var c := (cmd + args) + pa;
    assert Launches(m, cmd, paths, substitute) == [c];
    AppendParts(cmd + args, pa);
    forall i | 0 <= i < |paths| ensures c[|cmd| + |args| + i] == pa[i] {
    }
  }

  /** Otherwise each path has its own command, and exec_once adds the bare command once at the end. */
  lemma SeparateCommands(m: map<string, Json.Value>, cmd: seq<Json.Value>, paths: seq<string>,
                         substitute: (seq<Json.Value>, string) -> seq<Json.Value>)
    requires Complete(m) && m["args"].List? && !OnceForAll(m)
    ensures var ls := Launches(m, cmd, paths, substitute);
      |ls| == |paths| + (if Json.Truthy(m["exec_once"]) then 1 else 0)
      && (forall i :: 0 <= i < |paths| ==> cmd <= ls[i])
      && (Json.Truthy(m["exec_once"]) ==> ls[|paths|] == cmd + m["args"].items)
  {
    var ls := Launches(m, cmd, paths, substitute);
    var per := PerPath(cmd, m["args"].items, m["pass_path_to_cmd"], paths, substitute);
    forall i | 0 <= i < |paths| ensures cmd <= ls[i] {
      assert ls[i] == per[i];
      assert per[i][..|cmd|] == cmd;
    }
  }
}
