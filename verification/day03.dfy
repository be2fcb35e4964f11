/**
 * Day 3, "Mull It Over": the `mul(X,Y)`, `do()` and `don't()` instructions
 * found in corrupted memory. Every match record becomes a triple
 * (value, enable, disable); `mul1` adds up all products, `mul2` only those
 * that are enabled at their position.
 *
 * A match record is what `preg_match_all` with `PREG_SET_ORDER` yields
 * for the pattern of the source: `[whole, "X,Y"]` for a `mul`,
 * `[whole, "", "do"]` for a `do()` and `[whole, "", "", "don't"]` for a
 * `don't()`; records enter the model as plain lists of strings.
 */
module MullItOver {
  import opened Wrappers
  import opened Iterables
  import opened Strings
  import opened Samples

  // ---------------------------------------------------------------------
  // normalize
  // ---------------------------------------------------------------------

  /**
   * The normalized triple. `null` in the source's triples only ever meets
   * an `if`, so it is modelled as `false`.
   */
  datatype Instruction = Instruction(value: int, enable: bool, disable: bool)

  /** A plain `mul`: neither switch is set. */
  predicate IsMul(t: Instruction) {
    !t.enable && !t.disable
  }

  /** Arguments the product arm can cast: every comma-separated token is decimal. */
  predicate MulArgs(args: string) {
    DecimalTokens(Split(args, ",", true, true))
  }

  /**
   * The product arm: split the captured `X,Y` on commas (trimming,
   * dropping empty tokens), cast every token and multiply.
   */
  function MulValue(args: string): int
    requires MulArgs(args)
  {
    Product(Map(Split(args, ",", true, true), ToInt))
  }

  /** Records whose product arm can be evaluated. */
  predicate Castable(rec: seq<string>) {
    |rec| == 2 ==> MulArgs(rec[1])
  }

  /**
   * The `match` on the record length: 2 is a `mul`, 3 a `do`, 4 a
   * `don't`. There is no default arm, so any other length raises
   * `UnhandledMatchError`, modelled as `None`.
   */
  function NormalizeRecord(rec: seq<string>): (r: Option<Instruction>)
    requires Castable(rec)
    ensures r.Some? <==> 2 <= |rec| <= 4
    ensures r.Some? ==> (r.value.enable <==> |rec| == 3) && (r.value.disable <==> |rec| == 4)
    ensures r.Some? ==> !(r.value.enable && r.value.disable)
    ensures r.Some? && |rec| != 2 ==> r.value.value == 0
    ensures |rec| == 2 ==> r == Some(Instruction(MulValue(rec[1]), false, false))
  {
    if |rec| == 2 then Some(Instruction(MulValue(rec[1]), false, false))
    else if |rec| == 3 then Some(Instruction(0, true, false))
    else if |rec| == 4 then Some(Instruction(0, false, true))
    else None
  }

  /**
   * `normalize`: every record mapped to its triple, in order; the error of
   * a single record is the error of the whole stream.
   */
  function Normalize(recs: seq<seq<string>>): (r: Option<seq<Instruction>>)
    requires forall i :: 0 <= i < |recs| ==> Castable(recs[i])
    ensures r.Some? <==> forall i :: 0 <= i < |recs| ==> 2 <= |recs[i]| <= 4
    ensures r.Some? ==> |r.value| == |recs|
    ensures r.Some? ==> forall i :: 0 <= i < |recs| ==> Some(r.value[i]) == NormalizeRecord(recs[i])
    decreases |recs|
  {
    if |recs| == 0 then Some([])
    else
      match NormalizeRecord(recs[0])
      case None => None
      case Some(t) =>
        match Normalize(recs[1..])
        case None => None
        case Some(ts) => Some([t] + ts)
  }

  // ---------------------------------------------------------------------
  // the value of a mul, and the "0" quirk
  // ---------------------------------------------------------------------

  /** The `X,Y` capture of the pattern: two runs of digits around a comma. */
  predicate MulPair(args: string) {
    exists k :: 0 < k < |args| - 1 && args[k] == ',' && IsDigits(args[..k]) && IsDigits(args[k + 1..])
  }

  /** A record the pattern can produce, in its `PREG_SET_ORDER` shape. */
  predicate ScannedRecord(rec: seq<string>) {
    || (|rec| == 2 && MulPair(rec[1]))
    || (|rec| == 3 && rec[1] == "" && rec[2] == "do")
    || (|rec| == 4 && rec[1] == "" && rec[2] == "" && rec[3] == "don't")
  }

  /**
   * Splitting `X,Y` keeps both digit runs, except one that is exactly "0":
   * PHP `empty("0")` is true, so `notEmpty` drops it.
   */
  lemma SplitMulPair(x: string, y: string)
    requires IsDigits(x) && IsDigits(y)
    ensures Split(x + "," + y, ",", true, true) == Kept(x) + Kept(y)
  {
    ExplodeMulPair(x, y);
    TrimMulPair(x, y);
    FilterMulPair(x, y);
  }

  lemma ExplodeMulPair(x: string, y: string)
    requires IsDigits(x) && IsDigits(y)
    ensures Explode(x + "," + y, ",") == [x, y]
  {
    DigitsAreTrimmedWords(x, ',');
    DigitsAreTrimmedWords(y, ',');
    assert x + "," + y == x + [','] + y;
    ExplodeAtFirst(x, ',', y);
    ExplodeNoSeparator(y, ',');
  }

  lemma TrimMulPair(x: string, y: string)
    requires IsDigits(x) && IsDigits(y)
    ensures Map([x, y], Trim) == [x, y]
  {
    DigitsAreTrimmedWords(x, ',');
    DigitsAreTrimmedWords(y, ',');
  }

  lemma FilterMulPair(x: string, y: string)
    requires IsDigits(x) && IsDigits(y)
    ensures Filter([x, y], NotEmpty) == Kept(x) + Kept(y)
  {
    assert [x, y][1..] == [y];
    assert [y][1..] == [];
    assert Filter([y], NotEmpty) == Kept(y);
  }

  /**
   * What one argument of a `mul` contributes to the product: its value,
   * or 1 when it is exactly "0" and `split` has dropped it.
   */
  function Factor(x: string): int
    requires IsDigits(x)
  {
    if x == "0" then 1 else ToInt(x)
  }

  /**
   * The value of `mul(X,Y)` is X*Y, except that an argument written
   * exactly "0" is dropped by `split` and counts as 1 (while `00` is
   * kept and counts as 0).
   */
  lemma MulValueOfPair(x: string, y: string)
    requires IsDigits(x) && IsDigits(y)
    ensures MulArgs(x + "," + y)
    ensures MulValue(x + "," + y) == Factor(x) * Factor(y)
  {
    SplitMulPair(x, y);
    var a := Kept(x);
    var b := Kept(y);
    ProductOfCasts(a, b);
    FactorIsProduct(x);
    FactorIsProduct(y);
  }

  /** The tokens `split` keeps of one argument: none when it is exactly "0". */
  function Kept(x: string): seq<string> {
    if x == "0" then [] else [x]
  }

  lemma FactorIsProduct(x: string)
    requires IsDigits(x)
    ensures DecimalTokens(Kept(x))
    ensures Product(Map(Kept(x), ToInt)) == Factor(x)
  {
    ProductAppend([], []);
    if x != "0" {
      assert IsDecimal(x);
      assert Map([x], ToInt) == [ToInt(x)];
    }
  }

  /** Without a lone "0" argument the value is the plain product, and it is never negative. */
  lemma MulValueIsProduct(x: string, y: string)
    requires IsDigits(x) && IsDigits(y)
    ensures MulArgs(x + "," + y)
    ensures x != "0" && y != "0" ==> MulValue(x + "," + y) == ToInt(x) * ToInt(y)
    ensures MulValue(x + "," + y) >= 0
  {
    MulValueOfPair(x, y);
    MulNonNegative(Factor(x), Factor(y));
  }

  lemma MulNonNegative(a: int, b: int)
    requires a >= 0 && b >= 0
    ensures a * b >= 0
  {
  }

  /** Casting and multiplying the kept tokens of both arguments. */
  lemma ProductOfCasts(a: seq<string>, b: seq<string>)
    requires DecimalTokens(a) && DecimalTokens(b)
    ensures DecimalTokens(a + b)
    ensures Product(Map(a + b, ToInt)) == Product(Map(a, ToInt)) * Product(Map(b, ToInt))
  {
    assert Map(a + b, ToInt) == Map(a, ToInt) + Map(b, ToInt);
    ProductAppend(Map(a, ToInt), Map(b, ToInt));
  }

  /**
   * `mul(0,Y)` evaluates to Y rather than 0, so `mul(0,5)` is 5, and
   * `mul(0,0)` is 1.
   */
  lemma MulZeroQuirk(zero: string, y: string)
    requires zero == "0" && IsDigits(y) && y != "0"
    ensures MulArgs(zero + "," + y) && MulValue(zero + "," + y) == ToInt(y)
    ensures MulArgs(zero + "," + zero) && MulValue(zero + "," + zero) == 1
  {
    MulValueOfPair(zero, y);
    MulValueOfPair(zero, zero);
  }

  /** The capture `X,Y` is castable, and its product is never negative. */
  lemma MulPairValue(args: string)
    requires MulPair(args)
    ensures MulArgs(args) && MulValue(args) >= 0
  {
    var k :| 0 < k < |args| - 1 && args[k] == ',' && IsDigits(args[..k]) && IsDigits(args[k + 1..]);
    assert args == args[..k] + "," + args[k + 1..];
    MulValueIsProduct(args[..k], args[k + 1..]);
  }

  /** A triple that `normalize` makes from a scanned record. */
  predicate WellFormed(t: Instruction) {
    t.value >= 0 && !(t.enable && t.disable) && (!IsMul(t) ==> t.value == 0)
  }

  /**
   * Records of the pattern's shape never reach the missing `match` arm,
   * and every triple is well formed: a non-negative product with no
   * switch, or a 0 with exactly one switch.
   */
  lemma NormalizeScanned(recs: seq<seq<string>>)
    requires forall i :: 0 <= i < |recs| ==> ScannedRecord(recs[i])
    ensures forall i :: 0 <= i < |recs| ==> Castable(recs[i])
    ensures Normalize(recs).Some?
    ensures forall i :: 0 <= i < |recs| ==> WellFormed(Normalize(recs).value[i])
  {
    forall i | 0 <= i < |recs| ensures Castable(recs[i]) && ScannedValue(recs[i]) {
      ScannedRecordValue(recs[i]);
    }
    var ts := Normalize(recs).value;
    forall i | 0 <= i < |recs| ensures WellFormed(ts[i]) {
      assert Some(ts[i]) == NormalizeRecord(recs[i]);
    }
  }

  /** The product arm of a scanned record yields a non-negative value. */
  predicate ScannedValue(rec: seq<string>)
    requires Castable(rec)
  {
    |rec| == 2 ==> MulValue(rec[1]) >= 0
  }

  lemma ScannedRecordValue(rec: seq<string>)
    requires ScannedRecord(rec)
    ensures Castable(rec) && ScannedValue(rec)
  {
    if |rec| == 2 {
      MulPairValue(rec[1]);
    }
  }

  // ---------------------------------------------------------------------
  // mul1
  // ---------------------------------------------------------------------

  /** `Iterables::first` of a triple: its value. */
  function Value(t: Instruction): int {
    t.value
  }

  /** `mul1`: the sum of the first components of all triples. */
  function Mul1(ts: seq<Instruction>): int {
    Sum(Map(ts, Value))
  }

  /** `mul1` adds the values one instruction at a time; no instructions give 0. */
  lemma Mul1Snoc(ts: seq<Instruction>, t: Instruction)
    ensures Mul1([]) == 0
    ensures Mul1(ts + [t]) == Mul1(ts) + t.value
  {
    SumAppend(Map(ts, Value), [t.value]);
    assert Map(ts + [t], Value) == Map(ts, Value) + [t.value];
  }

  /** `do` and `don't` contribute nothing to `mul1`: it is the sum of the `mul` values. */
  lemma {:induction false} Mul1CountsMuls(ts: seq<Instruction>)
    requires forall i :: 0 <= i < |ts| ==> WellFormed(ts[i])
    ensures Mul1(ts) == Sum(Map(Filter(ts, IsMul), Value))
    ensures Mul1(ts) >= 0
    decreases |ts|
  {
    Mul1Snoc([], Instruction(0, false, false));
    if |ts| > 0 {
      var t := ts[0];
      Mul1CountsMuls(ts[1..]);
      assert ts == [t] + ts[1..];
      assert Map(ts, Value) == [t.value] + Map(ts[1..], Value);
      SumAppend([t.value], Map(ts[1..], Value));
      if IsMul(t) {
        assert Filter(ts, IsMul) == [t] + Filter(ts[1..], IsMul);
        assert Map(Filter(ts, IsMul), Value) == [t.value] + Map(Filter(ts[1..], IsMul), Value);
        SumAppend([t.value], Map(Filter(ts[1..], IsMul), Value));
      }
    }
  }

  // ---------------------------------------------------------------------
  // mul2
  // ---------------------------------------------------------------------

  /**
   * The reducer of `mul2` on the carry `[acc, enabled]`: `do` enables,
   * `don't` disables (checked in that order), a `mul` adds its value only
   * while enabled.
   */
  function Mul2Step(t: Instruction, carry: (int, bool)): (int, bool) {
    if t.enable then (carry.0, true)
    else if t.disable then (carry.0, false)
    else if carry.1 then (carry.0 + t.value, true)
    else (carry.0, false)
  }

  /** `mul2`: fold from `[0, true]` and take the accumulator. */
  function Mul2(ts: seq<Instruction>): int {
    Reduce(ts, (0, true), Mul2Step).0
  }

  /** One step never lowers the accumulator when the value is not negative. */
  lemma Mul2StepMonotone(t: Instruction, carry: (int, bool))
    requires t.value >= 0
    ensures carry.0 <= Mul2Step(t, carry).0 <= carry.0 + t.value
  {
  }

  /**
   * Reference meaning of the switch: before position `i`, every `don't`
   * is followed, still before `i`, by a `do`.
   */
  predicate EnabledBefore(ts: seq<Instruction>, i: int)
    requires 0 <= i <= |ts|
  {
    forall j :: 0 <= j < i && ts[j].disable && !ts[j].enable ==>
      exists k :: j < k < i && ts[k].enable
  }

  /** What instruction `i` adds to the `mul2` total. */
  function Contribution(ts: seq<Instruction>, i: int): int
    requires 0 <= i < |ts|
  {
    if IsMul(ts[i]) && EnabledBefore(ts, i) then ts[i].value else 0
  }

  function Contributions(ts: seq<Instruction>): (r: seq<int>)
    ensures |r| == |ts|
    ensures forall i :: 0 <= i < |ts| ==> r[i] == Contribution(ts, i)
  {
    seq(|ts|, i requires 0 <= i < |ts| => Contribution(ts, i))
  }

  /** Appending an instruction only decides the switch after it. */
  lemma EnabledBeforeSnoc(ts: seq<Instruction>, t: Instruction)
    ensures forall i :: 0 <= i <= |ts| ==> (EnabledBefore(ts + [t], i) <==> EnabledBefore(ts, i))
    ensures EnabledBefore(ts + [t], |ts| + 1)
      == if t.enable then true else if t.disable then false else EnabledBefore(ts, |ts|)
  {
    var u := ts + [t];
    var n := |ts|;
    forall i | 0 <= i <= n
      ensures EnabledBefore(u, i) <==> EnabledBefore(ts, i)
    {
      assert forall j :: 0 <= j < i ==> u[j] == ts[j];
    }
    if t.enable {
      forall j | 0 <= j < n + 1 && u[j].disable && !u[j].enable
        ensures exists k :: j < k < n + 1 && u[k].enable
      {
        assert u[n].enable;
      }
    } else if t.disable {
      assert u[n].disable && !u[n].enable;
    } else {
      if EnabledBefore(ts, n) {
        forall j | 0 <= j < n + 1 && u[j].disable && !u[j].enable
          ensures exists k :: j < k < n + 1 && u[k].enable
        {
          assert j < n;
          assert u[j] == ts[j];
          var k :| j < k < n && ts[k].enable;
          assert u[k].enable;
        }
      } else {
        var j :| 0 <= j < n && ts[j].disable && !ts[j].enable && !(exists k :: j < k < n && ts[k].enable);
        assert u[j] == ts[j];
        assert forall k :: j < k < n + 1 ==> (u[k].enable ==> k < n && ts[k].enable);
      }
    }
  }

  lemma ContributionsSnoc(ts: seq<Instruction>, t: Instruction)
    ensures Contributions(ts + [t]) == Contributions(ts) + [Contribution(ts + [t], |ts|)]
  {
    EnabledBeforeSnoc(ts, t);
    var u := ts + [t];
    assert forall i :: 0 <= i < |ts| ==> u[i] == ts[i];
  }

  /**
   * The fold of `mul2` carries exactly the reference meaning: the
   * accumulator is the sum of the enabled `mul` values so far, and the
   * flag says whether every `don't` so far has been undone by a `do`.
   */
  lemma {:induction false} Mul2Carry(ts: seq<Instruction>)
    ensures Reduce(ts, (0, true), Mul2Step) == (Sum(Contributions(ts)), EnabledBefore(ts, |ts|))
    decreases |ts|
  {
    if |ts| == 0 {
      SumAppend([], []);
    } else {
      var p := ts[..|ts| - 1];
      var t := ts[|ts| - 1];
      assert ts == p + [t];
      Mul2Carry(p);
      ReduceSnoc(p, t, (0, true), Mul2Step);
      EnabledBeforeSnoc(p, t);
      ContributionsSnoc(p, t);
      SumAppend(Contributions(p), [Contribution(ts, |p|)]);
    }
  }

  /** `mul2` is the sum of the values of the `mul`s that are enabled where they stand. */
  lemma Mul2IsEnabledSum(ts: seq<Instruction>)
    ensures Mul2(ts) == Sum(Contributions(ts))
  {
    Mul2Carry(ts);
  }

  /** With no `don't` in the stream, `mul2` equals `mul1`. */
  lemma Mul2WithoutDont(ts: seq<Instruction>)
    requires forall i :: 0 <= i < |ts| ==> WellFormed(ts[i])
    requires forall i :: 0 <= i < |ts| ==> !ts[i].disable
    ensures Mul2(ts) == Mul1(ts)
  {
    Mul2IsEnabledSum(ts);
    var c := Contributions(ts);
    var m := Map(ts, Value);
    forall i | 0 <= i < |ts| ensures c[i] == m[i] {
      assert EnabledBefore(ts, i);
    }
    assert c == m;
  }

  /** With well-formed triples, `mul2` is between 0 and `mul1`. */
  lemma Mul2Bounds(ts: seq<Instruction>)
    requires forall i :: 0 <= i < |ts| ==> WellFormed(ts[i])
    ensures 0 <= Mul2(ts) <= Mul1(ts)
  {
    Mul2IsEnabledSum(ts);
    var c := Contributions(ts);
    SumNonNegative(c);
    SumMonotone(c, Map(ts, Value));
  }

  /**
   * The accumulator never decreases through the fold: the total over a
   * shorter prefix is at most the total over a longer one.
   */
  lemma {:induction false} Mul2PrefixMonotone(ts: seq<Instruction>, i: int, j: int)
    requires forall k :: 0 <= k < |ts| ==> WellFormed(ts[k])
    requires 0 <= i <= j <= |ts|
    ensures Mul2(ts[..i]) <= Mul2(ts[..j])
    decreases j - i
  {
    if i < j {
      var p := ts[..j - 1];
      assert ts[..j] == p + [ts[j - 1]];
      assert p[..i] == ts[..i];
      Mul2PrefixMonotone(p, i, j - 1);
      assert p[..j - 1] == p;
      ReduceSnoc(p, ts[j - 1], (0, true), Mul2Step);
      Mul2StepMonotone(ts[j - 1], Reduce(p, (0, true), Mul2Step));
    }
  }

  /** The example of the puzzle statement, as its instruction stream: 161 and 48. */
  lemma ExampleTotals(ts: seq<Instruction>)
    requires ts == [Instruction(8, false, false), Instruction(0, false, true),
                    Instruction(25, false, false), Instruction(88, false, false),
                    Instruction(0, true, false), Instruction(40, false, false)]
    ensures Mul1(ts) == 161
    ensures Mul2(ts) == 48
  {
    var p0 := ts[..0];
    assert ts[..1] == p0 + [ts[0]];
    Mul1Snoc(p0, ts[0]);
    assert ts[..2] == ts[..1] + [ts[1]];
    Mul1Snoc(ts[..1], ts[1]);
    assert ts[..3] == ts[..2] + [ts[2]];
    Mul1Snoc(ts[..2], ts[2]);
    assert ts[..4] == ts[..3] + [ts[3]];
    Mul1Snoc(ts[..3], ts[3]);
    assert ts[..5] == ts[..4] + [ts[4]];
    Mul1Snoc(ts[..4], ts[4]);
    assert ts == ts[..5] + [ts[5]];
    Mul1Snoc(ts[..5], ts[5]);
    ExampleMul2(ts);
  }

  lemma ExampleMul2(ts: seq<Instruction>)
    requires ts == [Instruction(8, false, false), Instruction(0, false, true),
                    Instruction(25, false, false), Instruction(88, false, false),
                    Instruction(0, true, false), Instruction(40, false, false)]
    ensures Mul2(ts) == 48
  {
    Mul2IsEnabledSum(ts);
    var c := Contributions(ts);
    assert EnabledBefore(ts, 0);
    assert !EnabledBefore(ts, 2) by { assert ts[1].disable && !ts[1].enable; }
    assert !EnabledBefore(ts, 3) by { assert ts[1].disable && !ts[1].enable; }
    assert EnabledBefore(ts, 5) by {
      forall j | 0 <= j < 5 && ts[j].disable && !ts[j].enable
        ensures exists k :: j < k < 5 && ts[k].enable
      {
        assert ts[4].enable;
      }
    }
    assert c[0] == 8 && c[1] == 0 && c[2] == 0 && c[3] == 0 && c[4] == 0 && c[5] == 40;
    SumSix(c);
  }

  // ---------------------------------------------------------------------
  // the pipeline
  // ---------------------------------------------------------------------

  /** Part 1: `mul1` of the normalized records; `None` when `normalize` fails. */
  function Part1(recs: seq<seq<string>>): (total: Option<int>)
    requires forall i :: 0 <= i < |recs| ==> Castable(recs[i])
    ensures total.Some? <==> Normalize(recs).Some?
  {
    match Normalize(recs)
    case None => None
    case Some(ts) => Some(Mul1(ts))
  }

  /** Part 2: `mul2` of the normalized records; `None` when `normalize` fails. */
  function Part2(recs: seq<seq<string>>): (total: Option<int>)
    requires forall i :: 0 <= i < |recs| ==> Castable(recs[i])
    ensures total.Some? <==> Normalize(recs).Some?
  {
    match Normalize(recs)
    case None => None
    case Some(ts) => Some(Mul2(ts))
  }

  /**
   * On records of the pattern's shape both parts produce a total, and the
   * conditional total is between 0 and the unconditional one.
   */
  lemma PartsBounded(recs: seq<seq<string>>)
    requires forall i :: 0 <= i < |recs| ==> ScannedRecord(recs[i])
    ensures forall i :: 0 <= i < |recs| ==> Castable(recs[i])
    ensures Part1(recs).Some? && Part2(recs).Some?
    ensures 0 <= Part2(recs).value <= Part1(recs).value
  {
    NormalizeScanned(recs);
    Mul2Bounds(Normalize(recs).value);
  }
}
