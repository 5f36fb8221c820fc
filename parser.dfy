/** The command registry and Cp_FeedLine: a line is split into fields, its
    first field names a registered command, and each of the command's
    parameters takes its value from the first later field that starts with
    the parameter's letter. */
module CommandParser {
  import opened Options
  import Config
  import opened Decoders
  import opened Fields
  import opened Names
  import opened Dictionaries

  // ---------------------------------------------------------------------
  // Commands and values

  /** Cp_ParamType_t: the three known codes; any other code is OtherType. */
  datatype ParamType = LetterType | IntegerType | RealType | OtherType

  /** Cp_Param_t. */
  datatype Param = Param(letter: char, kind: ParamType)

  /** Cp_Command_t: the NUL-terminated name buffer, the declared parameters
      (the first numOfParams entries of the source's array) and the callback,
      identified by a number. */
  datatype Command = Command(name: seq<char>, params: seq<Param>, callback: nat)

  /** What the source's struct layout guarantees of a command: a name buffer
      of MAX_COMMAND_NAME_LENGTH + 1 characters holding a NUL, and no more
      than MAX_NUM_OF_PARAMS parameters. */
  predicate ValidCommand(c: Command) {
    |c.name| == Config.MaxCommandNameLength + 1 && CReadable(c.name) &&
    |c.params| <= Config.MaxNumOfParams
  }

  predicate AllValid(cmds: seq<Command>) {
    forall k :: 0 <= k < |cmds| ==> ValidCommand(cmds[k])
  }

  /** A decoded parameter value. */
  datatype Value = Letter(c: char) | Integer(n: int32) | Real(x: real)

  /** A parameter letter bound to its value, as the callback's dictionary
      holds it. */
  datatype Binding = Binding(letter: char, value: Value)

  function KeysOf(bs: seq<Binding>): (ks: seq<char>)
    ensures |ks| == |bs| && forall k :: 0 <= k < |bs| ==> ks[k] == bs[k].letter
  {
    seq(|bs|, k requires 0 <= k < |bs| => bs[k].letter)
  }

  function ValuesOf(bs: seq<Binding>): (vs: seq<Value>)
    ensures |vs| == |bs| && forall k :: 0 <= k < |bs| ==> vs[k] == bs[k].value
  {
    seq(|bs|, k requires 0 <= k < |bs| => bs[k].value)
  }

  // ---------------------------------------------------------------------
  // parseValue

  /** The value of a parameter field's text (the field less its letter):
      a Letter takes exactly one character, an Integer is the signed decode
      and a Real the float decode of the whole text; an unknown type never
      decodes. */
  function ValueDecode(text: seq<char>, kind: ParamType): Option<Value>
  {
    match kind
    case LetterType => if |text| == 1 then Some(Letter(text[0])) else None
    case IntegerType =>
      (match SignedDecode(text, 0, |text|)
       case None => None
       case Some(n) => Some(Integer(n)))
    case RealType =>
      (match FloatDecode(text, 0, |text|)
       case None => None
       case Some(x) => Some(Real(x)))
    case OtherType => None
  }

  /** parseValue: dispatches on the parameter type to the decoders. */
  method ParseValue(text: seq<char>, kind: ParamType) returns (ok: bool, value: Value)
    ensures ValueDecode(text, kind) == if ok then Some(value) else None
  {
    value := Letter(if |text| > 0 then text[0] else '\0');
    match kind {
      case LetterType =>
        ok := |text| == 1;
      case IntegerType =>
        var n;
        ok, n := ParseSignedInteger(text, 0, |text|);
        value := Integer(n);
      case RealType =>
        var x;
        ok, x := ParseFloat(text, 0, |text|);
        value := Real(x);
      case OtherType =>
        ok := false;
    }
  }

  // ---------------------------------------------------------------------
  // Cp_FeedLine, as a function of the registry and the line

  /** Every field is non-empty and lies inside the line. */
  predicate InLine(line: seq<char>, fs: seq<Field>) {
    forall k :: 0 <= k < |fs| ==> 1 <= fs[k].length && fs[k].start + fs[k].length <= |line|
  }

  lemma FieldsInLine(line: seq<char>)
    ensures InLine(line, Tokenize(line))
  {
    var fs := Tokenize(line);
    TokenizeShape(line);
    forall k | 0 <= k < |fs|
      ensures fs[k].start + fs[k].length <= |line|
    {
      if k < |fs| - 1 {
        assert fs[k + 1].start == fs[k].start + fs[k].length + 1 < |line|;
      }
    }
  }

  /** The text of a parameter field after its letter. */
  function ValueText(line: seq<char>, f: Field): (t: seq<char>)
    requires 1 <= f.length && f.start + f.length <= |line|
    ensures |t| == f.length - 1
  {
    line[f.start + 1..f.start + f.length]
  }

  /** The first field at index `j` or later whose first character is `letter`. */
  function FieldFrom(line: seq<char>, fs: seq<Field>, letter: char, j: nat): (r: Option<nat>)
    requires InLine(line, fs)
    ensures r.Some? ==> j <= r.value < |fs| && line[fs[r.value].start] == letter
    ensures r.Some? ==> forall k :: j <= k < r.value ==> line[fs[k].start] != letter
    ensures r.None? ==> forall k :: j <= k < |fs| ==> line[fs[k].start] != letter
    decreases |fs| - j
  {
    if j >= |fs| then None
    else if line[fs[j].start] == letter then Some(j)
    else FieldFrom(line, fs, letter, j + 1)
  }

  /** The field a parameter takes its value from: the first one after the
      command name that starts with its letter. */
  function FieldFor(line: seq<char>, fs: seq<Field>, letter: char): Option<nat>
    requires InLine(line, fs)
  {
    FieldFrom(line, fs, letter, 1)
  }

  /** What one parameter contributes: no field starts with its letter
      (Skip), its field decodes (Bound), or its field does not (Bad). */
  datatype Step = Skip | Bound(v: Value) | Bad

  function ParamStep(line: seq<char>, fs: seq<Field>, p: Param): Step
    requires InLine(line, fs)
  {
    match FieldFor(line, fs, p.letter)
    case None => Skip
    case Some(j) =>
      match ValueDecode(ValueText(line, fs[j]), p.kind)
      case None => Bad
      case Some(v) => Bound(v)
  }

  /** The steps of all the parameters, in order. */
  function Steps(line: seq<char>, fs: seq<Field>, ps: seq<Param>): (st: seq<Step>)
    requires InLine(line, fs)
  {
    seq(|ps|, k requires 0 <= k < |ps| => ParamStep(line, fs, ps[k]))
  }

  /** The outcome of binding the parameters from `ps[i]` on, in order, given
      their steps: a skipped parameter binds nothing, a decoded one is bound,
      and the first one that does not decode stops the binding, keeping what
      was bound before it. */
  datatype BindResult = BindResult(ok: bool, bindings: seq<Binding>)

  function BindFrom(ps: seq<Param>, steps: seq<Step>, i: nat): (r: BindResult)
    requires |steps| == |ps| && i <= |ps|
    ensures |r.bindings| <= |ps| - i
    decreases |ps| - i
  {
    if i == |ps| then BindResult(true, [])
    else
      var rest := BindFrom(ps, steps, i + 1);
      match steps[i]
      case Skip => rest
      case Bad => BindResult(false, [])
      case Bound(v) => BindResult(rest.ok, [Binding(ps[i].letter, v)] + rest.bindings)
  }

  /** A binding outcome with `done` bound before it. */
  function Prefixed(done: seq<Binding>, r: BindResult): BindResult {
    BindResult(r.ok, done + r.bindings)
  }

  /** BindFrom at `i`, in terms of step `i` and BindFrom at `i + 1`, with
      `done` bound before. */
  lemma BindFromStep(ps: seq<Param>, steps: seq<Step>, i: nat, done: seq<Binding>)
    requires |steps| == |ps| && i < |ps|
    ensures steps[i].Bad? ==> Prefixed(done, BindFrom(ps, steps, i)) == BindResult(false, done)
    ensures steps[i].Skip? ==> Prefixed(done, BindFrom(ps, steps, i)) == Prefixed(done, BindFrom(ps, steps, i + 1))
    ensures steps[i].Bound? ==>
      Prefixed(done, BindFrom(ps, steps, i)) ==
      Prefixed(done + [Binding(ps[i].letter, steps[i].v)], BindFrom(ps, steps, i + 1))
  {
    var rest := BindFrom(ps, steps, i + 1);
    match steps[i] {
      case Bad =>
        assert done + [] == done;
      case Bound(v) =>
        var b := Binding(ps[i].letter, v);
        assert done + ([b] + rest.bindings) == (done + [b]) + rest.bindings;
      case Skip =>
    }
  }

  /** Binding the parameters of a command against the fields of a line. */
  function Bind(line: seq<char>, fs: seq<Field>, ps: seq<Param>): BindResult
    requires InLine(line, fs)
  {
    BindFrom(ps, Steps(line, fs, ps), 0)
  }

  /** Whether a command's name is `name`. */
  predicate HasName(c: Command, name: seq<char>)
    requires ValidCommand(c)
  {
    NameOf(c.name) == name
  }

  /** The first command at index `i` or later whose name is `name`. */
  function FindFrom(cmds: seq<Command>, name: seq<char>, i: nat): (r: Option<nat>)
    requires AllValid(cmds)
    ensures r.Some? ==> i <= r.value < |cmds| && HasName(cmds[r.value], name)
    ensures r.Some? ==> forall k :: i <= k < r.value ==> !HasName(cmds[k], name)
    ensures r.None? ==> forall k :: i <= k < |cmds| ==> !HasName(cmds[k], name)
    decreases |cmds| - i
  {
    if i >= |cmds| then None
    else if HasName(cmds[i], name) then Some(i)
    else FindFrom(cmds, name, i + 1)
  }

  /** The first registered command whose name is `name`. */
  function FindCommand(cmds: seq<Command>, name: seq<char>): Option<nat>
    requires AllValid(cmds)
  {
    FindFrom(cmds, name, 0)
  }

  /** What feeding a line does: Rejected leaves everything as it was;
      Failed means a command was found but a parameter did not decode, and
      the dictionary then holds the parameters bound before it; Accepted
      means the command's callback runs with the bindings. */
  datatype Outcome = Rejected | Failed(partial: seq<Binding>) | Accepted(command: nat, bindings: seq<Binding>)

  /** The part of the line the source reads: its 16-bit length is narrowed
      to 8 bits. */
  function Visible(line: seq<char>): (v: seq<char>)
    ensures |v| < 256 && |v| <= |line| && v == line[..|v|]
  {
    line[..|line| % 256]
  }

  function Dispatch(cmds: seq<Command>, line: seq<char>): (out: Outcome)
    requires AllValid(cmds)
    ensures out.Accepted? ==> out.command < |cmds|
    ensures out.Accepted? ==>
      var l := Visible(line); var fs := Tokenize(l);
      1 <= |fs| <= Config.MaxFieldCount && InLine(l, fs) &&
      FindCommand(cmds, Text(l, fs[0])) == Some(out.command)
  {
    var l := Visible(line);
    var fs := Tokenize(l);
    FieldsInLine(l);
    if |fs| == 0 || |fs| > Config.MaxFieldCount then Rejected
    else match FindCommand(cmds, Text(l, fs[0]))
      case None => Rejected
      case Some(c) =>
        var r := Bind(l, fs, cmds[c].params);
        if r.ok then Accepted(c, r.bindings) else Failed(r.bindings)
  }

  // ---------------------------------------------------------------------
  // The registry and the parameter dictionary

  class Parser {
    /** CommandTable and NumOfCommands. */
    const table: array<Command>
    var numOfCommands: nat
    /** ParameterDictionary. */
    const dict: Dictionary<Value>

    ghost predicate Valid()
      reads this, table, dict
    {
      table.Length == Config.MaxNumOfCommands && numOfCommands <= table.Length &&
      AllValid(table[..numOfCommands]) && dict.Valid()
    }

    /** The registered commands, in registration order. */
    function Commands(): seq<Command>
      requires numOfCommands <= table.Length
      reads this, table
    {
      table[..numOfCommands]
    }

    constructor ()
      ensures Valid() && Commands() == [] && dict.Keys() == []
      ensures fresh(table) && fresh(dict) && fresh(dict.keys) && fresh(dict.values)
    {
      table := new Command[Config.MaxNumOfCommands];
      numOfCommands := 0;
      dict := new Dictionary<Value>();
    }

    /** Cp_Reset: forgets every registered command. */
    method Reset()
      requires Valid()
      modifies this
      ensures Valid() && Commands() == []
      ensures unchanged(dict) && dict.Keys() == old(dict.Keys()) && dict.Values() == old(dict.Values())
    {
      numOfCommands := 0;
    }

    /** Cp_Register: appends a command to the table. The source does not
        check the capacity; callers must not exceed it. */
    method Register(cmd: Command)
      requires Valid() && ValidCommand(cmd)
      requires numOfCommands < Config.MaxNumOfCommands
      modifies this, table
      ensures Valid() && Commands() == old(Commands()) + [cmd]
      ensures dict.Keys() == old(dict.Keys()) && dict.Values() == old(dict.Values())
    {
      table[numOfCommands] := cmd;
      numOfCommands := numOfCommands + 1;
    }

    /** The command lookup loop of Cp_FeedLine. */
    method FindCommandIndex(line: seq<char>, f: Field) returns (r: Option<nat>)
      requires Valid() && f.start + f.length <= |line|
      ensures r == FindCommand(Commands(), Text(line, f))
    {
      var i := 0;
      while i < numOfCommands
        invariant i <= numOfCommands
        invariant FindFrom(Commands(), Text(line, f), i) == FindCommand(Commands(), Text(line, f))
      {
        var m := DoesMatch(table[i].name, line[f.start..], f.length);
        assert line[f.start..][..f.length] == Text(line, f);
        if m {
          return Some(i);
        }
        i := i + 1;
      }
      return None;
    }

    /** Cp_FeedLine. `fired` is the callback that runs, if any. */
    method FeedLine(line: seq<char>) returns (ok: bool, fired: Option<nat>)
      requires Valid() && |line| < 0x1_0000
      modifies dict, dict.keys, dict.values
      ensures Valid()
      ensures var out := Dispatch(Commands(), line);
        (ok <==> out.Accepted?) &&
        fired == (if out.Accepted? then Some(Commands()[out.command].callback) else None) &&
        (out.Rejected? ==> dict.Keys() == old(dict.Keys()) && dict.Values() == old(dict.Values())) &&
        (out.Failed? ==> dict.Keys() == KeysOf(out.partial) && dict.Values() == ValuesOf(out.partial)) &&
        (out.Accepted? ==> dict.Keys() == KeysOf(out.bindings) && dict.Values() == ValuesOf(out.bindings))
    {
      var l := line[..|line| % 256];
      var fields := new Field[Config.MaxFieldCount];
      var count, overflow := ParseFields(l, fields);
      if overflow || count == 0 {
        return false, None;
      }
      FieldsInLine(l);
      var c := FindCommandIndex(l, fields[0]);
      if c.None? {
        return false, None;
      }
      var cmd := table[c.value];
      dict.Clear();
      ok := BindParams(l, fields, count, cmd.params);
      fired := if ok then Some(cmd.callback) else None;
    }

    /** The parameter loop of Cp_FeedLine, run on a cleared dictionary. */
    method BindParams(line: seq<char>, fields: array<Field>, count: nat, ps: seq<Param>) returns (ok: bool)
      requires dict.Valid() && dict.Keys() == []
      requires count <= fields.Length && InLine(line, fields[..count])
      requires |ps| <= Config.MaxNumOfParams
      modifies dict, dict.keys, dict.values
      ensures dict.Valid()
      ensures ok == Bind(line, fields[..count], ps).ok
      ensures dict.Keys() == KeysOf(Bind(line, fields[..count], ps).bindings)
      ensures dict.Values() == ValuesOf(Bind(line, fields[..count], ps).bindings)
    {
      ghost var steps := Steps(line, fields[..count], ps);
      ghost var done: seq<Binding> := [];
      var i := 0;
      while i < |ps|
        invariant i <= |ps| && steps == Steps(line, fields[..count], ps)
        invariant dict.Valid() && |done| <= i
        invariant dict.Keys() == KeysOf(done) && dict.Values() == ValuesOf(done)
        invariant BindFrom(ps, steps, 0) == Prefixed(done, BindFrom(ps, steps, i))
      {
        ok, done := BindOne(line, fields, count, ps, i, steps, done);
        if !ok {
          return false;
        }
        i := i + 1;
      }
      assert done + [] == done;
      return true;
    }

    /** One pass of the parameter loop: decode parameter `i` and add it to
        the dictionary, or skip it, or stop on a failed decode. */
    method BindOne(line: seq<char>, fields: array<Field>, count: nat, ps: seq<Param>, i: nat,
                   ghost steps: seq<Step>, ghost done: seq<Binding>) returns (ok: bool, ghost done': seq<Binding>)
      requires count <= fields.Length && InLine(line, fields[..count])
      requires i < |ps| <= Config.MaxNumOfParams && |done| <= i
      requires steps == Steps(line, fields[..count], ps)
      requires dict.Valid() && dict.Keys() == KeysOf(done) && dict.Values() == ValuesOf(done)
      modifies dict, dict.keys, dict.values
      ensures dict.Valid() && |done'| <= i + 1
      ensures dict.Keys() == KeysOf(done') && dict.Values() == ValuesOf(done')
      ensures ok ==> Prefixed(done, BindFrom(ps, steps, i)) == Prefixed(done', BindFrom(ps, steps, i + 1))
      ensures !ok ==> Prefixed(done, BindFrom(ps, steps, i)) == BindResult(false, done')
    {
      var step := StepParam(line, fields, count, ps[i]);
      BindFromStep(ps, steps, i, done);
      match step {
        case Bad =>
          return false, done;
        case Bound(v) =>
          Record(ps[i].letter, v, done);
          return true, done + [Binding(ps[i].letter, v)];
        case Skip =>
          return true, done;
      }
    }

    /** Dictionary_Add of one decoded parameter. */
    method Record(letter: char, v: Value, ghost done: seq<Binding>)
      requires dict.Valid() && |done| < Config.MaxNumOfParams
      requires dict.Keys() == KeysOf(done) && dict.Values() == ValuesOf(done)
      modifies dict, dict.keys, dict.values
      ensures dict.Valid()
      ensures dict.Keys() == KeysOf(done + [Binding(letter, v)])
      ensures dict.Values() == ValuesOf(done + [Binding(letter, v)])
    {
      dict.Add(letter, v);
      assert KeysOf(done + [Binding(letter, v)]) == KeysOf(done) + [letter];
      assert ValuesOf(done + [Binding(letter, v)]) == ValuesOf(done) + [v];
    }
  }

  /** One pass of the parameter loop's body: find the parameter's field,
      then decode it. */
  method StepParam(line: seq<char>, fields: array<Field>, count: nat, p: Param) returns (s: Step)
    requires count <= fields.Length && InLine(line, fields[..count])
    ensures s == ParamStep(line, fields[..count], p)
  {
    ghost var fs := fields[..count];
    var j := FindField(line, fields, count, p.letter);
    if j.None? {
      return Skip;
    }
    var f := fields[j.value];
    assert f == fs[j.value];
    var text := line[f.start + 1..f.start + f.length];
    assert text == ValueText(line, fs[j.value]);
    var decoded, v := ParseValue(text, p.kind);
    s := if decoded then Bound(v) else Bad;
  }

  /** The parameter-field search loop of Cp_FeedLine. */
  method FindField(line: seq<char>, fields: array<Field>, count: nat, letter: char) returns (r: Option<nat>)
    requires count <= fields.Length && InLine(line, fields[..count])
    ensures r == FieldFor(line, fields[..count], letter)
  {
    var j := 1;
    while j < count
      invariant 1 <= j
      invariant FieldFrom(line, fields[..count], letter, j) == FieldFor(line, fields[..count], letter)
    {
      if line[fields[j].start] == letter {
        return Some(j);
      }
      j := j + 1;
    }
    return None;
  }
}
