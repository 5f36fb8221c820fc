/** The command table and lines of the repository's own test program, and
    what feeding each line does. */
module TestLines {
  import opened Options
  import Config
  import opened Decoders
  import opened DecoderProps
  import opened Fields
  import opened Names
  import opened CommandParser

  /** delay(T: real), versi(V: integer), move(D: real, S: real) and
      pump(M: letter, V: real), registered in this order; each callback is
      numbered by its place. */
  function Table(): (t: seq<Command>)
    ensures |t| == 4
  {
    [Command("delay\0", [Param('T', RealType)], 0),
     Command("versi\0", [Param('V', IntegerType)], 1),
     Command("move\0\0", [Param('D', RealType), Param('S', RealType)], 2),
     Command("pump\0\0", [Param('M', LetterType), Param('V', RealType)], 3)]
  }

  /** A buffer that holds `name` and then a NUL reads back as `name`. */
  lemma NameBuffer(buf: seq<char>, name: seq<char>)
    requires |name| < |buf| && |name| < 255 && '\0' !in name
    requires buf[..|name|] == name && buf[|name|] == '\0'
    ensures CReadable(buf) && NameOf(buf) == name
  {
    NameOfTerminated(name, buf[|name| + 1..]);
    assert buf == name + ['\0'] + buf[|name| + 1..];
  }

  /** Every entry of the table is a well-formed command, and its name is
      the text of its buffer before the NUL. */
  lemma TableNames()
    ensures AllValid(Table())
    ensures NameOf(Table()[0].name) == "delay" && NameOf(Table()[1].name) == "versi"
    ensures NameOf(Table()[2].name) == "move" && NameOf(Table()[3].name) == "pump"
  {
    NameBuffer("delay\0", "delay");
    NameBuffer("versi\0", "versi");
    NameBuffer("move\0\0", "move");
    NameBuffer("pump\0\0", "pump");
  }

  /** The table's first command by each name. */
  lemma TableFind()
    ensures AllValid(Table())
    ensures FindCommand(Table(), "delay") == Some(0)
    ensures FindCommand(Table(), "versi") == Some(1)
    ensures FindCommand(Table(), "move") == Some(2)
    ensures FindCommand(Table(), "pump") == Some(3)
    ensures FindCommand(Table(), "stop") == None
  {
    TableNames();
  }

  /** Feeding a line whose fields, command and bindings are known. */
  lemma AcceptedVia(cmds: seq<Command>, line: seq<char>, fs: seq<Field>, c: nat, bs: seq<Binding>)
    requires AllValid(cmds) && Visible(line) == line && Tokenize(line) == fs && InLine(line, fs)
    requires 1 <= |fs| <= Config.MaxFieldCount && FindCommand(cmds, Text(line, fs[0])) == Some(c)
    requires c < |cmds| && Bind(line, fs, cmds[c].params) == BindResult(true, bs)
    ensures Dispatch(cmds, line) == Accepted(c, bs)
  {
  }

  /** Feeding a line whose fields and command are known and one of whose
      parameters does not decode. */
  lemma FailedVia(cmds: seq<Command>, line: seq<char>, fs: seq<Field>, c: nat, bs: seq<Binding>)
    requires AllValid(cmds) && Visible(line) == line && Tokenize(line) == fs && InLine(line, fs)
    requires 1 <= |fs| <= Config.MaxFieldCount && FindCommand(cmds, Text(line, fs[0])) == Some(c)
    requires c < |cmds| && Bind(line, fs, cmds[c].params) == BindResult(false, bs)
    ensures Dispatch(cmds, line) == Failed(bs)
  {
  }

  /** A line of two space-free words joined by one space has those two
      words as its fields. */
  lemma TwoFields(a: seq<char>, b: seq<char>)
    requires 1 <= |a| && 1 <= |b| && ' ' !in a && ' ' !in b && |a| + 1 + |b| < 256
    ensures var line := a + " " + b;
      Visible(line) == line && Tokenize(line) == [Field(0, |a|), Field(|a| + 1, |b|)] &&
      Text(line, Field(0, |a|)) == a && Text(line, Field(|a| + 1, |b|)) == b
  {
    var line := a + " " + b;
    var fs := [Field(0, |a|), Field(|a| + 1, |b|)];
    assert line[|a|] == ' ';
    assert forall k :: |a| + 1 <= k < |line| ==> line[k] == b[k - |a| - 1];
    assert forall k :: 0 <= k < |a| ==> line[k] == a[k];
    assert TilesFrom(line, |a| + 1, fs[1..]);
    TokenizeIff(line, fs);
    assert line[..|line|] == line;
  }

  /** Likewise for three words. */
  lemma ThreeFields(a: seq<char>, b: seq<char>, c: seq<char>)
    requires 1 <= |a| && 1 <= |b| && 1 <= |c| && ' ' !in a && ' ' !in b && ' ' !in c
    requires |a| + 1 + |b| + 1 + |c| < 256
    ensures var line := a + " " + b + " " + c; var q := |a| + 1 + |b| + 1;
      Visible(line) == line &&
      Tokenize(line) == [Field(0, |a|), Field(|a| + 1, |b|), Field(q, |c|)] &&
      Text(line, Field(0, |a|)) == a && Text(line, Field(|a| + 1, |b|)) == b && Text(line, Field(q, |c|)) == c
  {
    var line := a + " " + b + " " + c;
    var p, q := |a| + 1, |a| + 1 + |b| + 1;
    var fs := [Field(0, |a|), Field(p, |b|), Field(q, |c|)];
    assert line[|a|] == ' ' && line[q - 1] == ' ';
    assert forall k :: 0 <= k < |a| ==> line[k] == a[k];
    assert forall k :: p <= k < q - 1 ==> line[k] == b[k - p];
    assert forall k :: q <= k < |line| ==> line[k] == c[k - q];
    assert TilesFrom(line, q, fs[2..]);
    assert fs[1..][1..] == fs[2..];
    assert TilesFrom(line, p, fs[1..]);
    TokenizeIff(line, fs);
    assert line[..|line|] == line;
  }

  /** A field that decodes binds its parameter. */
  lemma StepBound(line: seq<char>, fs: seq<Field>, p: Param, j: nat, v: Value)
    requires InLine(line, fs) && FieldFor(line, fs, p.letter) == Some(j)
    requires ValueDecode(ValueText(line, fs[j]), p.kind) == Some(v)
    ensures ParamStep(line, fs, p) == Bound(v)
  {
  }

  /** The steps of two parameters. */
  lemma StepsOfTwo(line: seq<char>, fs: seq<Field>, p0: Param, p1: Param, s0: Step, s1: Step)
    requires InLine(line, fs) && ParamStep(line, fs, p0) == s0 && ParamStep(line, fs, p1) == s1
    ensures Steps(line, fs, [p0, p1]) == [s0, s1]
  {
  }

  /** A real field's text is bound as a Real when it decodes as a float. */
  lemma RealValue(t: seq<char>, x: real)
    requires FloatDecode(t, 0, |t|) == Some(x)
    ensures ValueDecode(t, RealType) == Some(Real(x))
  {
  }

  // ---------------------------------------------------------------------
  // "versi V10"

  lemma VersiValue()
    ensures ValueDecode("10", IntegerType) == Some(Integer(10))
  {
    SignedPositiveExample();
  }

  lemma VersiLine()
    ensures var l := "versi V10"; var fs := [Field(0, 5), Field(6, 3)];
      Visible(l) == l && Tokenize(l) == fs && InLine(l, fs) &&
      Text(l, fs[0]) == "versi" && ValueText(l, fs[1]) == "10"
  {
    var l := "versi" + " " + "V10";
    assert l == "versi V10";
    TwoFields("versi", "V10");
    FieldsInLine(l);
  }

  lemma VersiBind()
    ensures var l := "versi V10"; var fs := [Field(0, 5), Field(6, 3)];
      InLine(l, fs) &&
      Bind(l, fs, [Param('V', IntegerType)]) == BindResult(true, [Binding('V', Integer(10))])
  {
    var l, fs := "versi V10", [Field(0, 5), Field(6, 3)];
    VersiLine();
    VersiValue();
    assert Steps(l, fs, [Param('V', IntegerType)]) == [Bound(Integer(10))];
  }

  /** "versi V10" runs versi's callback with V bound to the integer 10. */
  lemma VersiAccepted()
    ensures AllValid(Table())
    ensures Dispatch(Table(), "versi V10") == Accepted(1, [Binding('V', Integer(10))])
  {
    TableFind();
    VersiLine();
    VersiBind();
    AcceptedVia(Table(), "versi V10", [Field(0, 5), Field(6, 3)], 1, [Binding('V', Integer(10))]);
  }

  // ---------------------------------------------------------------------
  // "delay T1E2"

  lemma DelayLine()
    ensures var l := "delay T1E2"; var fs := [Field(0, 5), Field(6, 4)];
      Visible(l) == l && Tokenize(l) == fs && InLine(l, fs) &&
      Text(l, fs[0]) == "delay" && ValueText(l, fs[1]) == "1E2"
  {
    var l := "delay" + " " + "T1E2";
    assert l == "delay T1E2";
    TwoFields("delay", "T1E2");
    FieldsInLine(l);
  }

  lemma DelayBind()
    ensures var l := "delay T1E2"; var fs := [Field(0, 5), Field(6, 4)];
      InLine(l, fs) &&
      Bind(l, fs, [Param('T', RealType)]) == BindResult(true, [Binding('T', Real(100.0))])
  {
    var l, fs := "delay T1E2", [Field(0, 5), Field(6, 4)];
    DelayLine();
    FloatHundredExample();
    assert ValueDecode("1E2", RealType) == Some(Real(100.0));
    assert Steps(l, fs, [Param('T', RealType)]) == [Bound(Real(100.0))];
  }

  /** "delay T1E2" runs delay's callback with T bound to 100: the exponent
      scales the mantissa by a power of ten. */
  lemma DelayAccepted()
    ensures AllValid(Table())
    ensures Dispatch(Table(), "delay T1E2") == Accepted(0, [Binding('T', Real(100.0))])
  {
    TableFind();
    DelayLine();
    DelayBind();
    AcceptedVia(Table(), "delay T1E2", [Field(0, 5), Field(6, 4)], 0, [Binding('T', Real(100.0))]);
  }

  // ---------------------------------------------------------------------
  // "move D1.0 S5.0"

  lemma MoveLine()
    ensures var l := "move D1.0 S5.0"; var fs := [Field(0, 4), Field(5, 4), Field(10, 4)];
      Visible(l) == l && Tokenize(l) == fs && InLine(l, fs) &&
      Text(l, fs[0]) == "move" && ValueText(l, fs[1]) == "1.0" && ValueText(l, fs[2]) == "5.0"
  {
    var l := "move" + " " + "D1.0" + " " + "S5.0";
    assert l == "move D1.0 S5.0";
    ThreeFields("move", "D1.0", "S5.0");
    FieldsInLine(l);
  }

  lemma MoveBind()
    ensures var l := "move D1.0 S5.0"; var fs := [Field(0, 4), Field(5, 4), Field(10, 4)];
      InLine(l, fs) &&
      Bind(l, fs, Table()[2].params) == BindResult(true, [Binding('D', Real(1.0)), Binding('S', Real(5.0))])
  {
    var l, fs := "move D1.0 S5.0", [Field(0, 4), Field(5, 4), Field(10, 4)];
    MoveSteps();
    StepsOfTwo(l, fs, Param('D', RealType), Param('S', RealType), Bound(Real(1.0)), Bound(Real(5.0)));
  }

  lemma MoveSteps()
    ensures var l := "move D1.0 S5.0"; var fs := [Field(0, 4), Field(5, 4), Field(10, 4)];
      InLine(l, fs) &&
      ParamStep(l, fs, Param('D', RealType)) == Bound(Real(1.0)) &&
      ParamStep(l, fs, Param('S', RealType)) == Bound(Real(5.0))
  {
    var l, fs := "move D1.0 S5.0", [Field(0, 4), Field(5, 4), Field(10, 4)];
    MoveLine();
    MoveValues();
    assert FieldFor(l, fs, 'D') == Some(1);
    StepBound(l, fs, Param('D', RealType), 1, Real(1.0));
    assert FieldFor(l, fs, 'S') == Some(2);
    StepBound(l, fs, Param('S', RealType), 2, Real(5.0));
  }

  lemma MoveValues()
    ensures ValueDecode("1.0", RealType) == Some(Real(1.0))
    ensures ValueDecode("5.0", RealType) == Some(Real(5.0))
  {
    FloatPlain("1.0");
    FractionalOneExample();
    RealValue("1.0", 1.0);
    FloatPlain("5.0");
    FractionalFiveExample();
    RealValue("5.0", 5.0);
  }

  /** "move D1.0 S5.0" runs move's callback with D bound to 1 and S to 5. */
  lemma MoveAccepted()
    ensures AllValid(Table())
    ensures Dispatch(Table(), "move D1.0 S5.0") == Accepted(2, [Binding('D', Real(1.0)), Binding('S', Real(5.0))])
  {
    TableFind();
    MoveLine();
    MoveBind();
    AcceptedVia(Table(), "move D1.0 S5.0", [Field(0, 4), Field(5, 4), Field(10, 4)], 2,
      [Binding('D', Real(1.0)), Binding('S', Real(5.0))]);
  }

  // ---------------------------------------------------------------------
  // "pump V1.25 MD"

  lemma PumpLine()
    ensures var l := "pump V1.25 MD"; var fs := [Field(0, 4), Field(5, 5), Field(11, 2)];
      Visible(l) == l && Tokenize(l) == fs && InLine(l, fs) &&
      Text(l, fs[0]) == "pump" && ValueText(l, fs[1]) == "1.25" && ValueText(l, fs[2]) == "D"
  {
    var l := "pump" + " " + "V1.25" + " " + "MD";
    assert l == "pump V1.25 MD";
    ThreeFields("pump", "V1.25", "MD");
    FieldsInLine(l);
  }

  lemma PumpBind()
    ensures var l := "pump V1.25 MD"; var fs := [Field(0, 4), Field(5, 5), Field(11, 2)];
      InLine(l, fs) &&
      Bind(l, fs, Table()[3].params) == BindResult(true, [Binding('M', Letter('D')), Binding('V', Real(1.25))])
  {
    var l, fs := "pump V1.25 MD", [Field(0, 4), Field(5, 5), Field(11, 2)];
    PumpSteps();
    StepsOfTwo(l, fs, Param('M', LetterType), Param('V', RealType), Bound(Letter('D')), Bound(Real(1.25)));
  }

  lemma PumpSteps()
    ensures var l := "pump V1.25 MD"; var fs := [Field(0, 4), Field(5, 5), Field(11, 2)];
      InLine(l, fs) &&
      ParamStep(l, fs, Param('M', LetterType)) == Bound(Letter('D')) &&
      ParamStep(l, fs, Param('V', RealType)) == Bound(Real(1.25))
  {
    var l, fs := "pump V1.25 MD", [Field(0, 4), Field(5, 5), Field(11, 2)];
    PumpLine();
    PumpValues();
    assert FieldFor(l, fs, 'M') == Some(2);
    StepBound(l, fs, Param('M', LetterType), 2, Letter('D'));
    assert FieldFor(l, fs, 'V') == Some(1);
    StepBound(l, fs, Param('V', RealType), 1, Real(1.25));
  }

  lemma PumpValues()
    ensures ValueDecode("D", LetterType) == Some(Letter('D'))
    ensures ValueDecode("1.25", RealType) == Some(Real(1.25))
  {
    FloatPlain("1.25");
    FractionalQuarterExample();
    RealValue("1.25", 1.25);
  }

  /** "pump V1.25 MD" runs pump's callback with M bound to the letter D and
      V to 1.25: parameters are found by letter, whatever the order of the
      fields, and bound in the order the command declares them. */
  lemma PumpAccepted()
    ensures AllValid(Table())
    ensures Dispatch(Table(), "pump V1.25 MD") == Accepted(3, [Binding('M', Letter('D')), Binding('V', Real(1.25))])
  {
    TableFind();
    PumpLine();
    PumpBind();
    AcceptedVia(Table(), "pump V1.25 MD", [Field(0, 4), Field(5, 5), Field(11, 2)], 3,
      [Binding('M', Letter('D')), Binding('V', Real(1.25))]);
  }

  // ---------------------------------------------------------------------
  // Lines that do not run a callback, or run it without a value

  /** A line whose first field names no registered command is refused. */
  lemma UnknownRejected()
    ensures AllValid(Table())
    ensures Dispatch(Table(), "stop T1") == Rejected
  {
    var l, fs := "stop T1", [Field(0, 4), Field(5, 2)];
    TableFind();
    StopLine();
    assert Dispatch(Table(), l) == Rejected;
  }

  lemma StopLine()
    ensures var l := "stop T1"; var fs := [Field(0, 4), Field(5, 2)];
      Visible(l) == l && Tokenize(l) == fs && InLine(l, fs) && Text(l, fs[0]) == "stop"
  {
    var l := "stop" + " " + "T1";
    assert l == "stop T1";
    TwoFields("stop", "T1");
    FieldsInLine(l);
  }

  lemma DelayAloneLine()
    ensures var l := "delay"; var fs := [Field(0, 5)];
      Visible(l) == l && Tokenize(l) == fs && InLine(l, fs) && Text(l, fs[0]) == "delay" &&
      FieldFor(l, fs, 'T') == None
  {
    var l, fs := "delay", [Field(0, 5)];
    assert TilesFrom(l, 0, fs);
    TokenizeIff(l, fs);
    assert l[..|l|] == l;
  }

  /** A parameter without a field is left unbound, and the callback still
      runs: "delay" runs delay's callback with an empty dictionary. */
  lemma MissingParamAccepted()
    ensures AllValid(Table())
    ensures Dispatch(Table(), "delay") == Accepted(0, [])
  {
    var l, fs := "delay", [Field(0, 5)];
    TableFind();
    DelayAloneLine();
    assert Steps(l, fs, [Param('T', RealType)]) == [Skip];
    AcceptedVia(Table(), l, fs, 0, []);
  }

  lemma PartialLine()
    ensures var l := "pump MD V1.2.3"; var fs := [Field(0, 4), Field(5, 2), Field(8, 6)];
      Visible(l) == l && Tokenize(l) == fs && InLine(l, fs) &&
      Text(l, fs[0]) == "pump" && ValueText(l, fs[1]) == "D" && ValueText(l, fs[2]) == "1.2.3" &&
      FieldFor(l, fs, 'M') == Some(1) && FieldFor(l, fs, 'V') == Some(2)
  {
    var l := "pump" + " " + "MD" + " " + "V1.2.3";
    assert l == "pump MD V1.2.3";
    ThreeFields("pump", "MD", "V1.2.3");
    FieldsInLine(l);
  }

  lemma PartialValue()
    ensures ValueDecode("1.2.3", RealType) == None
  {
    FloatPlain("1.2.3");
    FractionalTwoPointsExample();
  }

  lemma PartialSteps()
    ensures var l := "pump MD V1.2.3"; var fs := [Field(0, 4), Field(5, 2), Field(8, 6)];
      InLine(l, fs) &&
      Steps(l, fs, [Param('M', LetterType), Param('V', RealType)]) == [Bound(Letter('D')), Bad]
  {
    var l, fs := "pump MD V1.2.3", [Field(0, 4), Field(5, 2), Field(8, 6)];
    PartialLine();
    PartialValue();
    StepBound(l, fs, Param('M', LetterType), 1, Letter('D'));
    StepsOfTwo(l, fs, Param('M', LetterType), Param('V', RealType), Bound(Letter('D')), Bad);
  }

  /** A parameter that does not decode stops Cp_FeedLine with FALSE, and the
      dictionary keeps what was bound before it: after "pump MD V1.2.3" it
      holds M, bound to D, and no callback runs. */
  lemma PartialFailed()
    ensures AllValid(Table())
    ensures Dispatch(Table(), "pump MD V1.2.3") == Failed([Binding('M', Letter('D'))])
  {
    var l, fs := "pump MD V1.2.3", [Field(0, 4), Field(5, 2), Field(8, 6)];
    TableFind();
    PartialLine();
    PartialBind();
    FailedVia(Table(), l, fs, 3, [Binding('M', Letter('D'))]);
  }

  lemma PartialBind()
    ensures var l := "pump MD V1.2.3"; var fs := [Field(0, 4), Field(5, 2), Field(8, 6)];
      InLine(l, fs) &&
      Bind(l, fs, [Param('M', LetterType), Param('V', RealType)]) == BindResult(false, [Binding('M', Letter('D'))])
  {
    PartialSteps();
  }

  // ---------------------------------------------------------------------
  // "delay T0" followed by 256 spaces, fed with its full length 264

  /** A buffer of 264 characters: "delay T0" and then 256 spaces. */
  function LongZeroLine(): (buf: seq<char>)
    ensures |buf| == 264
  {
    "delay T0" + seq(256, _ => ' ')
  }

  /** The length 264 is narrowed to 8 bits, so only "delay T0" is split into
      fields, but field T's value pointer is the buffer from index 7: a '0'
      and then spaces at every index a uint8_t can reach from there. The
      source's cropJerk never stops on it. */
  lemma LongZeroCropHangs(fuel: nat)
    ensures Visible(LongZeroLine()) == "delay T0"
    ensures CropAsWritten(LongZeroLine()[7..], 0, fuel) == None
  {
    var v := LongZeroLine()[7..];
    assert v[0] == '0';
    assert forall k :: 1 <= k < 256 ==> v[k] == ' ';
    CropAsWrittenNeverEnds(v, 0, fuel);
  }

  lemma DelayZeroLine()
    ensures var l := "delay T0"; var fs := [Field(0, 5), Field(6, 2)];
      Visible(l) == l && Tokenize(l) == fs && InLine(l, fs) &&
      Text(l, fs[0]) == "delay" && ValueText(l, fs[1]) == "0"
  {
    var l := "delay" + " " + "T0";
    assert l == "delay T0";
    TwoFields("delay", "T0");
    FieldsInLine(l);
  }

  lemma DelayZeroBind()
    ensures var l := "delay T0"; var fs := [Field(0, 5), Field(6, 2)];
      InLine(l, fs) &&
      Bind(l, fs, [Param('T', RealType)]) == BindResult(true, [Binding('T', Real(0.0))])
  {
    var l, fs := "delay T0", [Field(0, 5), Field(6, 2)];
    DelayZeroLine();
    FloatPlain("0");
    assert FractionalDecode("0", 0, 1) == Some(0.0);
    assert ValueDecode("0", RealType) == Some(Real(0.0));
    assert Steps(l, fs, [Param('T', RealType)]) == [Bound(Real(0.0))];
  }

  /** With the crop stopped at the window end, the same buffer runs delay's
      callback with T bound to 0. */
  lemma LongZeroAccepted()
    ensures AllValid(Table())
    ensures Dispatch(Table(), LongZeroLine()) == Accepted(0, [Binding('T', Real(0.0))])
  {
    TableFind();
    DelayZeroLine();
    DelayZeroBind();
    AcceptedVia(Table(), "delay T0", [Field(0, 5), Field(6, 2)], 0, [Binding('T', Real(0.0))]);
    assert Visible(LongZeroLine()) == Visible("delay T0");
  }

  // ---------------------------------------------------------------------
  // "versi V-0" followed by 256 spaces, fed with its full length 265

  /** A buffer of 265 characters: "versi V-0" and then 256 spaces. */
  function LongNegZeroLine(): (buf: seq<char>)
    ensures |buf| == 265
  {
    "versi V-0" + seq(256, _ => ' ')
  }

  /** Only "versi V-0" is split into fields. Field V's value pointer is the
      buffer from index 7, holding "-0" in a window of length 2. getSign
      takes the '-', and the source's cropJerk runs from index 1 over the '0'
      and the spaces, wraps, and stops at index 0 on the '-'. The unsigned
      decode from there refuses the '-', so the source refuses the line. */
  lemma LongNegZeroCropWraps()
    ensures Visible(LongNegZeroLine()) == "versi V-0"
    ensures var v := LongNegZeroLine()[7..];
      |v| >= 256 && SignLength(v, 0, 2) == 1 &&
      CropAsWritten(v, 1, 255) == Some(0) && UnsignedDecode(v, 0, 2) == None
  {
    var v := LongNegZeroLine()[7..];
    assert v[0] == '-' && v[1] == '0';
    assert forall k :: 2 <= k < 256 ==> v[k] == ' ';
    assert Crop(v, 0, 1) == 0;
    CropAsWrittenWraps(v, 1, 1, 255);
    assert Window(v, 0, 2)[0] == '-';
  }

  lemma NegZeroLine()
    ensures var l := "versi V-0"; var fs := [Field(0, 5), Field(6, 3)];
      Visible(l) == l && Tokenize(l) == fs && InLine(l, fs) &&
      Text(l, fs[0]) == "versi" && ValueText(l, fs[1]) == "-0"
  {
    var l := "versi" + " " + "V-0";
    assert l == "versi V-0";
    TwoFields("versi", "V-0");
    FieldsInLine(l);
  }

  lemma NegZeroBind()
    ensures var l := "versi V-0"; var fs := [Field(0, 5), Field(6, 3)];
      InLine(l, fs) &&
      Bind(l, fs, [Param('V', IntegerType)]) == BindResult(true, [Binding('V', Integer(0))])
  {
    var l, fs := "versi V-0", [Field(0, 5), Field(6, 3)];
    NegZeroLine();
    assert SignStop("-0", 0, 2) == 2;
    assert SignedDecode("-0", 0, 2) == Some(0);
    assert ValueDecode("-0", IntegerType) == Some(Integer(0));
    assert Steps(l, fs, [Param('V', IntegerType)]) == [Bound(Integer(0))];
  }

  /** With the crop stopped at the window end, the same buffer runs versi's
      callback with V bound to 0. */
  lemma LongNegZeroAccepted()
    ensures AllValid(Table())
    ensures Dispatch(Table(), LongNegZeroLine()) == Accepted(1, [Binding('V', Integer(0))])
  {
    TableFind();
    NegZeroLine();
    NegZeroBind();
    AcceptedVia(Table(), "versi V-0", [Field(0, 5), Field(6, 3)], 1, [Binding('V', Integer(0))]);
    assert Visible(LongNegZeroLine()) == Visible("versi V-0");
  }
}
