/** Properties of Cp_FeedLine's outcome: when a line is accepted, what the
    callback's dictionary holds, how registration order decides, and the
    project's own test lines. */
module DispatchProps {
  import opened Options
  import Config
  import opened Decoders
  import opened Fields
  import opened Names
  import opened Dictionaries
  import opened CommandParser

  // ---------------------------------------------------------------------
  // When a line is accepted

  /** A parameter is satisfied when no field carries its letter or its
      first such field decodes. */
  predicate Decodes(line: seq<char>, fs: seq<Field>, p: Param)
    requires InLine(line, fs)
  {
    !ParamStep(line, fs, p).Bad?
  }

  lemma {:induction false} BindFromOkIff(ps: seq<Param>, steps: seq<Step>, i: nat)
    requires |steps| == |ps| && i <= |ps|
    ensures BindFrom(ps, steps, i).ok <==> forall k :: i <= k < |ps| ==> !steps[k].Bad?
    decreases |ps| - i
  {
    if i < |ps| {
      BindFromOkIff(ps, steps, i + 1);
    }
  }

  /** Binding succeeds exactly when every declared parameter is satisfied. */
  lemma BindOkIff(line: seq<char>, fs: seq<Field>, ps: seq<Param>)
    requires InLine(line, fs)
    ensures Bind(line, fs, ps).ok <==> forall k :: 0 <= k < |ps| ==> Decodes(line, fs, ps[k])
  {
    var st := Steps(line, fs, ps);
    assert forall k :: 0 <= k < |ps| ==> st[k] == ParamStep(line, fs, ps[k]);
    BindFromOkIff(ps, st, 0);
  }

  /** Cp_FeedLine returns TRUE (and runs the callback) exactly when the line
      has a field (and no more than the field array holds), its first field
      names a registered command, and every parameter of the first such
      command is satisfied. */
  lemma AcceptedIff(cmds: seq<Command>, line: seq<char>)
    requires AllValid(cmds)
    ensures InLine(Visible(line), Tokenize(Visible(line)))
    ensures var l := Visible(line); var fs := Tokenize(l);
      Dispatch(cmds, line).Accepted? <==>
        1 <= |fs| <= Config.MaxFieldCount &&
        FindCommand(cmds, Text(l, fs[0])).Some? &&
        forall k :: 0 <= k < |cmds[FindCommand(cmds, Text(l, fs[0])).value].params| ==>
          Decodes(l, fs, cmds[FindCommand(cmds, Text(l, fs[0])).value].params[k])
  {
    var l := Visible(line);
    FieldsInLine(l);
    var fs := Tokenize(l);
    if 1 <= |fs| <= Config.MaxFieldCount && FindCommand(cmds, Text(l, fs[0])).Some? {
      BindOkIff(l, fs, cmds[FindCommand(cmds, Text(l, fs[0])).value].params);
    }
  }

  // ---------------------------------------------------------------------
  // What the callback's dictionary holds

  /** The value a step binds, if any. */
  function BoundValue(s: Step): Option<Value>
  {
    if s.Bound? then Some(s.v) else None
  }

  /** No two parameters from index `i` on share a letter. */
  predicate DistinctLetters(ps: seq<Param>, i: nat) {
    forall j, k :: i <= j < k < |ps| ==> ps[j].letter != ps[k].letter
  }

  lemma LookupCons(b: Binding, rest: seq<Binding>, key: char)
    ensures Lookup(KeysOf([b] + rest), ValuesOf([b] + rest), key) ==
      if key == b.letter then Some(b.value) else Lookup(KeysOf(rest), ValuesOf(rest), key)
  {
    assert KeysOf([b] + rest) == [b.letter] + KeysOf(rest);
    assert ValuesOf([b] + rest) == [b.value] + ValuesOf(rest);
    if key != b.letter {
      match IndexOf(KeysOf(rest), key)
      case None =>
      case Some(i) =>
        assert KeysOf([b] + rest)[..i + 1] == [b.letter] + KeysOf(rest)[..i];
    }
  }

  lemma {:induction false} BindFromLookup(ps: seq<Param>, steps: seq<Step>, i: nat, key: char)
    requires |steps| == |ps| && i <= |ps| && DistinctLetters(ps, i)
    requires BindFrom(ps, steps, i).ok
    ensures var bs := BindFrom(ps, steps, i).bindings;
      (forall k :: i <= k < |ps| && ps[k].letter == key ==>
        Lookup(KeysOf(bs), ValuesOf(bs), key) == BoundValue(steps[k])) &&
      ((forall k :: i <= k < |ps| ==> ps[k].letter != key) ==>
        Lookup(KeysOf(bs), ValuesOf(bs), key) == None)
    decreases |ps| - i
  {
    if i < |ps| {
      BindFromLookup(ps, steps, i + 1, key);
      var rest := BindFrom(ps, steps, i + 1).bindings;
      match steps[i]
      case Skip =>
      case Bound(v) =>
        LookupCons(Binding(ps[i].letter, v), rest, key);
    }
  }

  /** When a line is accepted and the command's parameters have distinct
      letters, Dictionary_Get of a parameter's letter gives the value decoded
      from its field, or NULL when the line has no field for it; Get of any
      other letter gives NULL. */
  lemma AcceptedLookup(cmds: seq<Command>, line: seq<char>, key: char)
    requires AllValid(cmds) && Dispatch(cmds, line).Accepted?
    requires DistinctLetters(cmds[Dispatch(cmds, line).command].params, 0)
    ensures InLine(Visible(line), Tokenize(Visible(line)))
    ensures var out := Dispatch(cmds, line); var ps := cmds[out.command].params;
      var l := Visible(line); var fs := Tokenize(l);
      (forall k :: 0 <= k < |ps| && ps[k].letter == key ==>
        Lookup(KeysOf(out.bindings), ValuesOf(out.bindings), key) == BoundValue(ParamStep(l, fs, ps[k]))) &&
      ((forall k :: 0 <= k < |ps| ==> ps[k].letter != key) ==>
        Lookup(KeysOf(out.bindings), ValuesOf(out.bindings), key) == None)
  {
    var l := Visible(line);
    FieldsInLine(l);
    var ps := cmds[Dispatch(cmds, line).command].params;
    BindFromLookup(ps, Steps(l, Tokenize(l), ps), 0, key);
  }

  // ---------------------------------------------------------------------
  // The registry

  lemma AppendValid(cmds: seq<Command>, more: seq<Command>)
    requires AllValid(cmds) && AllValid(more)
    ensures AllValid(cmds + more)
  {
    var all := cmds + more;
    forall k | 0 <= k < |all|
      ensures ValidCommand(all[k])
    {
      if k < |cmds| {
        assert all[k] == cmds[k];
      } else {
        assert all[k] == more[k - |cmds|];
      }
    }
  }

  /** The first match in a registry is still the first match once more
      commands follow it. */
  lemma FindAppend(cmds: seq<Command>, more: seq<Command>, name: seq<char>)
    requires AllValid(cmds) && AllValid(cmds + more)
    requires FindCommand(cmds, name).Some?
    ensures FindCommand(cmds + more, name) == FindCommand(cmds, name)
  {
    var all := cmds + more;
    var r := FindCommand(cmds, name).value;
    assert all[r] == cmds[r];
  }

  /** Commands registered later never take a line from an earlier one: once
      a line reaches a command, registering more commands does not change
      what feeding it does. */
  lemma FirstRegisteredWins(cmds: seq<Command>, more: seq<Command>, line: seq<char>)
    requires AllValid(cmds) && AllValid(more)
    requires !Dispatch(cmds, line).Rejected?
    ensures AllValid(cmds + more)
    ensures Dispatch(cmds + more, line) == Dispatch(cmds, line)
  {
    var l := Visible(line);
    var fs := Tokenize(l);
    FieldsInLine(l);
    assert 1 <= |fs|;
    AppendValid(cmds, more);
    FindAppend(cmds, more, Text(l, fs[0]));
    var c := FindCommand(cmds, Text(l, fs[0])).value;
    assert (cmds + more)[c] == cmds[c];
  }

  /** After Cp_Reset no line is accepted. */
  lemma EmptyRegistryRejects(line: seq<char>)
    ensures Dispatch([], line) == Rejected
  {
  }
}
