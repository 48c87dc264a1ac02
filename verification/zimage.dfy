/**
 * The command line the main process hands to the z-image executable
 * (`runZImageCommand`), and the models directory it shares with
 * `getZImageModels`.
 *
 * Options arrive over IPC as plain JavaScript values, so a field typed as a
 * number may hold a string (the renderer sends `gpuId: 'auto'`). JavaScript
 * truthiness decides `-n -o -s -l -r -m`; `-p` is always pushed; `-g` is
 * pushed whenever gpuId is defined, 0 included.
 */
module ZImage {
  import opened Wrappers
  import opened Strings
  import opened Paths

  /** A JavaScript number (integral here) or string. */
  datatype Scalar = Num(n: int) | Str(s: string)

  /** `ZImageOptions`; `None` is `undefined`. */
  datatype Options = Options(
    prompt: string,
    negativePrompt: Option<string>,
    output: Option<string>,
    width: Option<int>,
    height: Option<int>,
    steps: Option<Scalar>,
    seed: Option<Scalar>,
    model: Option<string>,
    gpuId: Option<Scalar>)

  /** The sentinels the code compares against. */
  const AutoSteps: string := "auto"
  const RandomSeed: string := "rand"

  /** JavaScript truthiness of an optional value: `undefined`, `0` and `''` are falsy. */
  predicate Truthy(v: Option<Scalar>) {
    match v
    case None => false
    case Some(Num(n)) => n != 0
    case Some(Str(s)) => s != ""
  }

  predicate TruthyText(v: Option<string>) {
    v.Some? && v.value != ""
  }

  predicate TruthyNum(v: Option<int>) {
    v.Some? && v.value != 0
  }

  /** `${x}` */
  function Text(x: Scalar): string {
    match x
    case Num(n) => IntStr(n)
    case Str(s) => s
  }

  /** The directory holding the executable. */
  function ExecutableDir(exe: string): string {
    Join([exe, ".."])
  }

  /** The models directory, a sibling of the executable's directory. */
  function ModelsDir(exe: string): string {
    Join([ExecutableDir(exe), "..", "models"])
  }

  /** The `-m` value for a model folder name. */
  function ModelPath(exe: string, model: string): string {
    Normalize(Join([ExecutableDir(exe), "..", "models", model]))
  }

  /** The `-s` value. */
  function SizeText(width: int, height: int): string {
    IntStr(width) + "," + IntStr(height)
  }

  /** One `if (...) args.push(flag, value)` of the builder: the value when pushed. */
  datatype Slot = Slot(flag: string, value: Option<string>)

  function Slots(o: Options, exe: string): seq<Slot> {
    [ Slot("-p", Some(o.prompt)),
      Slot("-n", if TruthyText(o.negativePrompt) then Some(o.negativePrompt.value) else None),
      Slot("-o", if TruthyText(o.output) then Some(Normalize(o.output.value)) else None),
      Slot("-s", if TruthyNum(o.width) && TruthyNum(o.height)
                 then Some(SizeText(o.width.value, o.height.value)) else None),
      Slot("-l", if Truthy(o.steps) && o.steps.value != Str(AutoSteps)
                 then Some(Text(o.steps.value)) else None),
      Slot("-r", if Truthy(o.seed) && o.seed.value != Str(RandomSeed)
                 then Some(Text(o.seed.value)) else None),
      Slot("-m", if TruthyText(o.model) then Some(ModelPath(exe, o.model.value)) else None),
      Slot("-g", if o.gpuId.Some? then Some(Text(o.gpuId.value)) else None) ]
  }

  /** The pushes of the slots that fire, in order. */
  function Emit(slots: seq<Slot>): (argv: seq<string>)
    ensures |argv| % 2 == 0
  {
    if |slots| == 0 then []
    else
      (if slots[0].value.Some? then [slots[0].flag, slots[0].value.value] else [])
      + Emit(slots[1..])
  }

  /** The argument vector for the executable at `exe`. */
  function Args(o: Options, exe: string): seq<string> {
    Emit(Slots(o, exe))
  }

  // ---------------------------------------------------------------------------
  // Reading an argument vector back as flag/value pairs

  /** The value following the first occurrence of `flag` in flag position. */
  function ValueOf(argv: seq<string>, flag: string): Option<string>
    decreases |argv|
  {
    if |argv| < 2 then None
    else if argv[0] == flag then Some(argv[1])
    else ValueOf(argv[2..], flag)
  }

  predicate Has(argv: seq<string>, flag: string) {
    ValueOf(argv, flag).Some?
  }

  /** The words in flag position. */
  function Flags(argv: seq<string>): seq<string>
    decreases |argv|
  {
    if |argv| < 2 then [] else [argv[0]] + Flags(argv[2..])
  }

  /** Position of a flag in the builder's fixed order; 8 for anything else. */
  function Rank(flag: string): nat {
    if flag == "-p" then 0
    else if flag == "-n" then 1
    else if flag == "-o" then 2
    else if flag == "-s" then 3
    else if flag == "-l" then 4
    else if flag == "-r" then 5
    else if flag == "-m" then 6
    else if flag == "-g" then 7
    else 8
  }

  /** Known flags only, in the fixed order, none repeated. */
  predicate InFlagOrder(flags: seq<string>) {
    && (forall i | 0 <= i < |flags| :: Rank(flags[i]) < 8)
    && (forall i, j | 0 <= i < j < |flags| :: Rank(flags[i]) < Rank(flags[j]))
  }

  /** The value of the first slot for `flag`. */
  function Lookup(slots: seq<Slot>, flag: string): Option<string> {
    if |slots| == 0 then None
    else if slots[0].flag == flag then slots[0].value
    else Lookup(slots[1..], flag)
  }

  function Fired(slots: seq<Slot>): seq<string> {
    if |slots| == 0 then []
    else (if slots[0].value.Some? then [slots[0].flag] else []) + Fired(slots[1..])
  }

  lemma {:induction false} ValueOfPair(flag: string, v: string, rest: seq<string>, f: string)
    ensures ValueOf([flag, v] + rest, f) == if flag == f then Some(v) else ValueOf(rest, f)
  {
    assert ([flag, v] + rest)[2..] == rest;
  }

  lemma {:induction false} EmitValueOf(slots: seq<Slot>, f: string)
    requires forall i, j | 0 <= i < j < |slots| :: slots[i].flag != slots[j].flag
    ensures ValueOf(Emit(slots), f) == Lookup(slots, f)
    decreases |slots|
  {
    if |slots| > 0 {
      var s := slots[0];
      EmitValueOf(slots[1..], f);
      if s.value.Some? {
        ValueOfPair(s.flag, s.value.value, Emit(slots[1..]), f);
      } else {
        assert Emit(slots) == [] + Emit(slots[1..]) == Emit(slots[1..]);
        if s.flag == f {
          assert forall i | 0 <= i < |slots[1..]| :: slots[1..][i].flag == slots[i + 1].flag != f;
          LookupAbsent(slots[1..], f);
          assert Lookup(slots, f) == None;
          assert ValueOf(Emit(slots[1..]), f) == None;
        } else {
          assert Lookup(slots, f) == Lookup(slots[1..], f);
        }
      }
    }
  }

  lemma {:induction false} LookupAt(slots: seq<Slot>, k: nat)
    requires k < |slots|
    requires forall i, j | 0 <= i < j < |slots| :: slots[i].flag != slots[j].flag
    ensures Lookup(slots, slots[k].flag) == slots[k].value
    decreases k
  {
    if k > 0 {
      assert slots[1..][k - 1] == slots[k];
      LookupAt(slots[1..], k - 1);
    }
  }

  lemma {:induction false} LookupAbsent(slots: seq<Slot>, f: string)
    requires forall i | 0 <= i < |slots| :: slots[i].flag != f
    ensures Lookup(slots, f) == None
    decreases |slots|
  {
    if |slots| > 0 {
      LookupAbsent(slots[1..], f);
    }
  }

  lemma {:induction false} EmitFlags(slots: seq<Slot>)
    ensures Flags(Emit(slots)) == Fired(slots)
    decreases |slots|
  {
    if |slots| > 0 {
      EmitFlags(slots[1..]);
      var s := slots[0];
      var rest := Emit(slots[1..]);
      if s.value.Some? {
        assert Emit(slots) == [s.flag, s.value.value] + rest;
        assert ([s.flag, s.value.value] + rest)[2..] == rest;
      } else {
        assert Emit(slots) == rest;
      }
    }
  }

  lemma {:induction false} FiredInOrder(slots: seq<Slot>)
    requires forall i | 0 <= i < |slots| :: Rank(slots[i].flag) < 8
    requires forall i, j | 0 <= i < j < |slots| :: Rank(slots[i].flag) < Rank(slots[j].flag)
    ensures InFlagOrder(Fired(slots))
    ensures forall i | 0 <= i < |Fired(slots)| :: |slots| > 0 && Rank(slots[0].flag) <= Rank(Fired(slots)[i])
    decreases |slots|
  {
    if |slots| > 0 {
      FiredInOrder(slots[1..]);
      var tail := Fired(slots[1..]);
      assert forall i | 0 <= i < |tail| :: Rank(slots[0].flag) < Rank(tail[i]);
    }
  }

  // ---------------------------------------------------------------------------
  // Properties of the built command line

  /**
   * The vector is flag/value pairs, starting with `-p` and the prompt; the
   * flags follow the order -p -n -o -s -l -r -m -g with none repeated.
   */
  lemma ArgsShape(o: Options, exe: string)
    ensures |Args(o, exe)| % 2 == 0 && |Args(o, exe)| >= 2
    ensures Args(o, exe)[0] == "-p" && Args(o, exe)[1] == o.prompt
    ensures InFlagOrder(Flags(Args(o, exe)))
  {
    var slots := Slots(o, exe);
    SlotsRanked(o, exe);
    EmitFlags(slots);
    FiredInOrder(slots);
    assert slots[0] == Slot("-p", Some(o.prompt));
    assert Emit(slots) == ["-p", o.prompt] + Emit(slots[1..]);
  }

  /** Slot `i` holds the flag of rank `i`. */
  lemma SlotsRanked(o: Options, exe: string)
    ensures |Slots(o, exe)| == 8
    ensures forall i | 0 <= i < 8 :: Rank(Slots(o, exe)[i].flag) == i
  {
  }

  lemma SlotsDistinct(o: Options, exe: string)
    ensures forall i, j | 0 <= i < j < |Slots(o, exe)| :: Slots(o, exe)[i].flag != Slots(o, exe)[j].flag
  {
    SlotsRanked(o, exe);
  }

  /** The value of the flag of slot `k`, read back from the vector. */
  lemma ArgAt(o: Options, exe: string, k: nat)
    requires k < 8
    ensures ValueOf(Args(o, exe), Slots(o, exe)[k].flag) == Slots(o, exe)[k].value
  {
    SlotsDistinct(o, exe);
    EmitValueOf(Slots(o, exe), Slots(o, exe)[k].flag);
    LookupAt(Slots(o, exe), k);
  }

  /** `-p`, `-n`, `-o` and `-s` as the options decide them. */
  predicate TextArgsFollow(o: Options, exe: string) {
    && ValueOf(Args(o, exe), "-p") == Some(o.prompt)
    && ValueOf(Args(o, exe), "-n") ==
         (if o.negativePrompt.Some? && o.negativePrompt.value != "" then o.negativePrompt else None)
    && ValueOf(Args(o, exe), "-o") ==
         (if o.output.Some? && o.output.value != "" then Some(Normalize(o.output.value)) else None)
    && ValueOf(Args(o, exe), "-s") ==
         (if o.width.Some? && o.width.value != 0 && o.height.Some? && o.height.value != 0
          then Some(IntStr(o.width.value) + "," + IntStr(o.height.value)) else None)
  }

  /** `-l` and `-r` as the options decide them. */
  predicate NumberArgsFollow(o: Options, exe: string) {
    && (Has(Args(o, exe), "-l") <==> o.steps.Some? && o.steps.value !in {Num(0), Str(""), Str("auto")})
    && (Has(Args(o, exe), "-r") <==> o.seed.Some? && o.seed.value !in {Num(0), Str(""), Str("rand")})
    && (Has(Args(o, exe), "-l") ==> ValueOf(Args(o, exe), "-l") == Some(Text(o.steps.value)))
    && (Has(Args(o, exe), "-r") ==> ValueOf(Args(o, exe), "-r") == Some(Text(o.seed.value)))
  }

  /** `-m` and `-g` as the options decide them. */
  predicate ModelGpuArgsFollow(o: Options, exe: string) {
    && (Has(Args(o, exe), "-m") <==> o.model.Some? && o.model.value != "")
    && ValueOf(Args(o, exe), "-g") == (if o.gpuId.Some? then Some(Text(o.gpuId.value)) else None)
  }

  lemma ArgsTextValues(o: Options, exe: string)
    ensures TextArgsFollow(o, exe)
  {
    ArgAt(o, exe, 0);
    ArgAt(o, exe, 1);
    ArgAt(o, exe, 2);
    ArgAt(o, exe, 3);
  }

  lemma ArgsNumberValues(o: Options, exe: string)
    ensures NumberArgsFollow(o, exe)
  {
    ArgAt(o, exe, 4);
    ArgAt(o, exe, 5);
  }

  lemma ArgsModelGpuValues(o: Options, exe: string)
    ensures ModelGpuArgsFollow(o, exe)
  {
    ArgAt(o, exe, 6);
    ArgAt(o, exe, 7);
  }

  /** Which flags are present, and with which value, in terms of the options. */
  lemma ArgsValues(o: Options, exe: string)
    ensures TextArgsFollow(o, exe) && NumberArgsFollow(o, exe) && ModelGpuArgsFollow(o, exe)
  {
    ArgsTextValues(o, exe);
    ArgsNumberValues(o, exe);
    ArgsModelGpuValues(o, exe);
  }

  /** `-m` names the model folder inside the directory `getZImageModels` lists. */
  lemma ModelArgInModelsDir(o: Options, exe: string)
    requires o.model.Some? && o.model.value != ""
    ensures ValueOf(Args(o, exe), "-m") == Some(Join([ModelsDir(exe), o.model.value]))
  {
    var slots := Slots(o, exe);
    SlotsDistinct(o, exe);
    EmitValueOf(slots, "-m");
    LookupAt(slots, 6);
    ModelPathIsChildOfModelsDir(exe, o.model.value);
  }

  lemma ModelPathIsChildOfModelsDir(exe: string, m: string)
    requires m != ""
    ensures ModelPath(exe, m) == Join([ModelsDir(exe), m])
  {
    var e := ExecutableDir(exe);
    JoinIsNormal([exe, ".."]);
    var x := e + "/" + ".." + "/" + "models";
    JoinFour(e, "..", "models", m);
    NormalizeIdempotent(x + "/" + m);
    JoinThree(e, "..", "models");
    JoinIsNormal([e, "..", "models"]);
    JoinTwo(ModelsDir(exe), m);
    NormalizePrefix(x, m);
    assert e + "/" + ".." + "/" + "models" + "/" + m == x + "/" + m;
  }

  /** Going one level up from the `-m` value lands in the models directory. */
  lemma ModelArgParent(o: Options, exe: string)
    requires o.model.Some? && Plain(o.model.value)
    ensures Has(Args(o, exe), "-m") && Join([ValueOf(Args(o, exe), "-m").value, ".."]) == ModelsDir(exe)
  {
    ModelArgInModelsDir(o, exe);
    ParentOfChild(ModelsDir(exe), o.model.value);
    JoinIsNormal([ExecutableDir(exe), "..", "models"]);
  }

  /** How the executable reads `-s`: two integers around the first comma. */
  function ParseSize(s: string): Option<(int, int)> {
    match SplitAt(s, ',')
    case None => None
    case Some(p) =>
      match (ParseInt(p.0), ParseInt(p.1))
      case (Some(w), Some(h)) => Some((w, h))
      case _ => None
  }

  /** The `-s` value reads back as the width and height that produced it. */
  lemma SizeRoundTrip(o: Options, exe: string)
    requires o.width.Some? && o.width.value != 0 && o.height.Some? && o.height.value != 0
    ensures Has(Args(o, exe), "-s")
    ensures ParseSize(ValueOf(Args(o, exe), "-s").value) == Some((o.width.value, o.height.value))
  {
    ArgsTextValues(o, exe);
    var w := o.width.value;
    var h := o.height.value;
    IntStrHasNoComma(w);
    SplitAtFirst(IntStr(w), IntStr(h), ',');
    assert IntStr(w) + "," + IntStr(h) == IntStr(w) + [','] + IntStr(h);
    ParseIntStr(w);
    ParseIntStr(h);
  }

  /** Numeric steps and seeds read back as the numbers given. */
  lemma NumericRoundTrip(o: Options, exe: string)
    ensures o.steps.Some? && o.steps.value.Num? && o.steps.value.n != 0 ==>
      ValueOf(Args(o, exe), "-l").Some? && ParseInt(ValueOf(Args(o, exe), "-l").value) == Some(o.steps.value.n)
    ensures o.seed.Some? && o.seed.value.Num? && o.seed.value.n != 0 ==>
      ValueOf(Args(o, exe), "-r").Some? && ParseInt(ValueOf(Args(o, exe), "-r").value) == Some(o.seed.value.n)
  {
    ArgsNumberValues(o, exe);
    if o.steps.Some? && o.steps.value.Num? {
      ParseIntStr(o.steps.value.n);
    }
    if o.seed.Some? && o.seed.value.Num? {
      ParseIntStr(o.seed.value.n);
    }
  }

  /** The sentinels suppress `-l` and `-r`; explicit numbers appear verbatim. */
  lemma SentinelsAndNumbers(o: Options, exe: string)
    ensures o.steps == Some(Str("auto")) && o.seed == Some(Str("rand")) ==>
      !Has(Args(o, exe), "-l") && !Has(Args(o, exe), "-r")
    ensures o.steps == Some(Num(20)) && o.seed == Some(Num(42)) ==>
      ValueOf(Args(o, exe), "-l") == Some("20") && ValueOf(Args(o, exe), "-r") == Some("42")
    ensures o.seed == Some(Str("random")) ==> ValueOf(Args(o, exe), "-r") == Some("random")
    ensures o.gpuId == Some(Num(0)) ==> ValueOf(Args(o, exe), "-g") == Some("0")
  {
    ArgsNumberValues(o, exe);
    ArgsModelGpuValues(o, exe);
    assert NatStr(20) == NatStr(2) + [DigitChar(0)] == "20";
    assert NatStr(42) == NatStr(4) + [DigitChar(2)] == "42";
  }
}
