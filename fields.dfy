/** parseFields: splitting a command line into fields at single spaces. */
module Fields {

  /** A span of the line: its first index and its length. */
  datatype Field = Field(start: nat, length: nat)

  // ---------------------------------------------------------------------
  // The scan, as a function

  /** The fields the scan emits from index `i` on, the current field having
      started at `fs`. A field ends at a space that is not its own first
      character, or at the last character of the line, which it then
      includes (so a trailing space belongs to the last field). */
  function Scan(line: seq<char>, i: nat, fs: nat): seq<Field>
    requires fs <= i <= |line|
    decreases |line| - i
  {
    if i == |line| then []
    else if (line[i] == ' ' && fs < i) || (i == |line| - 1 && fs <= i) then
      [Field(fs, if i == |line| - 1 then i + 1 - fs else i - fs)] + Scan(line, i + 1, i + 1)
    else Scan(line, i + 1, fs)
  }

  /** The fields of a whole line. */
  function Tokenize(line: seq<char>): seq<Field> {
    Scan(line, 0, 0)
  }

  // ---------------------------------------------------------------------
  // What a tokenization is, independently of the scan

  /** No space in line[a..b]. */
  ghost predicate NoSpace(line: seq<char>, a: nat, b: nat)
    requires b <= |line|
  {
    forall j :: a <= j < b ==> line[j] != ' '
  }

  /** `fs` tiles line[p..]: each field starts where the previous one ended
      plus one separating space, has at least one character, and has no
      space after its first character (except that the last field, which
      ends at the end of the line, may end with one). */
  ghost predicate TilesFrom(line: seq<char>, p: nat, fs: seq<Field>)
    decreases |fs|
  {
    if fs == [] then p == |line|
    else if |fs| == 1 then
      fs[0].start == p && fs[0].length >= 1 && p + fs[0].length == |line| &&
      NoSpace(line, p + 1, |line| - 1)
    else
      var len := fs[0].length;
      fs[0].start == p && len >= 1 && p + len < |line| && line[p + len] == ' ' &&
      NoSpace(line, p + 1, p + len) && TilesFrom(line, p + len + 1, fs[1..])
  }

  /** The scan produces a tiling of the rest of the line, provided nothing
      between the current field's start and `i` is a space. */
  lemma {:induction false} ScanTiles(line: seq<char>, i: nat, p: nat)
    requires p <= i <= |line|
    requires i == |line| ==> p == i
    requires NoSpace(line, p + 1, i)
    ensures TilesFrom(line, p, Scan(line, i, p))
    decreases |line| - i
  {
    if i < |line| {
      if (line[i] == ' ' && p < i) || i == |line| - 1 {
        ScanTiles(line, i + 1, i + 1);
        var rest := Scan(line, i + 1, i + 1);
        assert Scan(line, i, p)[1..] == rest;
      } else {
        ScanTiles(line, i + 1, p);
      }
    }
  }

  /** A tiling that is not empty starts inside the line. */
  lemma TilesStartInside(line: seq<char>, p: nat, fs: seq<Field>)
    requires TilesFrom(line, p, fs)
    ensures fs != [] <==> p < |line|
  {
  }

  /** A line has at most one tiling from a given index. */
  lemma {:induction false} TilesUnique(line: seq<char>, p: nat, a: seq<Field>, b: seq<Field>)
    requires TilesFrom(line, p, a) && TilesFrom(line, p, b)
    ensures a == b
    decreases |a|
  {
    TilesStartInside(line, p, a);
    TilesStartInside(line, p, b);
    if a != [] {
      var la, lb := a[0].length, b[0].length;
      if |a| > 1 {
        TilesStartInside(line, p + la + 1, a[1..]);
      }
      if |b| > 1 {
        TilesStartInside(line, p + lb + 1, b[1..]);
      }
      if |a| > 1 && |b| > 1 {
        TilesUnique(line, p + la + 1, a[1..], b[1..]);
        assert a == [a[0]] + a[1..] && b == [b[0]] + b[1..];
      }
    }
  }

  /** The tokenization of a line is exactly its tiling from index 0. */
  lemma TokenizeIff(line: seq<char>, fs: seq<Field>)
    ensures Tokenize(line) == fs <==> TilesFrom(line, 0, fs)
  {
    ScanTiles(line, 0, 0);
    if TilesFrom(line, 0, fs) {
      TilesUnique(line, 0, Tokenize(line), fs);
    }
  }

  /** The shape of a tiling, field by field. */
  lemma {:induction false} TilesShape(line: seq<char>, p: nat, fs: seq<Field>)
    requires TilesFrom(line, p, fs) && fs != []
    ensures fs[0].start == p
    ensures fs[|fs| - 1].start + fs[|fs| - 1].length == |line|
    ensures forall k :: 0 <= k < |fs| ==> fs[k].length >= 1
    ensures forall k :: 0 <= k < |fs| - 1 ==>
      fs[k + 1].start == fs[k].start + fs[k].length + 1 < |line| && line[fs[k].start + fs[k].length] == ' '
    decreases |fs|
  {
    if |fs| > 1 {
      TilesShape(line, p + fs[0].length + 1, fs[1..]);
      forall k | 0 <= k < |fs| - 1
        ensures fs[k + 1].start == fs[k].start + fs[k].length + 1 < |line| && line[fs[k].start + fs[k].length] == ' '
      {
        if k > 0 {
          assert fs[k] == fs[1..][k - 1] && fs[k + 1] == fs[1..][k];
        }
      }
      forall k | 0 <= k < |fs|
        ensures fs[k].length >= 1
      {
        if k > 0 {
          assert fs[k] == fs[1..][k - 1];
        }
      }
    }
  }

  /** An empty line has no field; any other line has at least one, the first
      starting at 0, the last ending at the end of the line, every field
      non-empty, and consecutive fields separated by exactly one space. */
  lemma TokenizeShape(line: seq<char>)
    ensures |line| == 0 <==> Tokenize(line) == []
    ensures |line| > 0 ==>
      var fs := Tokenize(line);
      fs[0].start == 0 &&
      fs[|fs| - 1].start + fs[|fs| - 1].length == |line| &&
      (forall k :: 0 <= k < |fs| ==> fs[k].length >= 1) &&
      (forall k :: 0 <= k < |fs| - 1 ==>
        fs[k + 1].start == fs[k].start + fs[k].length + 1 < |line| && line[fs[k].start + fs[k].length] == ' ')
  {
    var fs := Tokenize(line);
    TokenizeIff(line, fs);
    TilesStartInside(line, 0, fs);
    if fs != [] {
      TilesShape(line, 0, fs);
    }
  }

  // ---------------------------------------------------------------------
  // Joining the fields gives the line back

  /** The characters a field spans. */
  function Text(line: seq<char>, f: Field): (t: seq<char>)
    requires f.start + f.length <= |line|
    ensures |t| == f.length
  {
    line[f.start..f.start + f.length]
  }

  /** Parts joined with single spaces. */
  function Join(parts: seq<seq<char>>): seq<char> {
    if parts == [] then []
    else if |parts| == 1 then parts[0]
    else parts[0] + [' '] + Join(parts[1..])
  }

  /** The texts of the fields of a tiling, in order. */
  ghost function TextsFrom(line: seq<char>, p: nat, fs: seq<Field>): seq<seq<char>>
    requires TilesFrom(line, p, fs)
    decreases |fs|
  {
    if fs == [] then []
    else [Text(line, fs[0])] + if |fs| == 1 then [] else TextsFrom(line, p + fs[0].length + 1, fs[1..])
  }

  /** Joining the texts of a tiling with single spaces gives back the part of
      the line it tiles. */
  lemma {:induction false} TilesJoin(line: seq<char>, p: nat, fs: seq<Field>)
    requires TilesFrom(line, p, fs)
    ensures p <= |line|
    ensures Join(TextsFrom(line, p, fs)) == line[p..]
    decreases |fs|
  {
    if |fs| > 1 {
      var q := p + fs[0].length + 1;
      TilesJoin(line, q, fs[1..]);
      JoinStep(line, p, fs[0].length, TextsFrom(line, q, fs[1..]));
    }
  }

  /** One field, a space, then the join of the rest. */
  lemma JoinStep(line: seq<char>, p: nat, len: nat, rest: seq<seq<char>>)
    requires p + len < |line| && line[p + len] == ' '
    requires rest != [] && Join(rest) == line[p + len + 1..]
    ensures Join([line[p..p + len]] + rest) == line[p..]
  {
    assert ([line[p..p + len]] + rest)[1..] == rest;
    assert line[p..] == line[p..p + len] + [' '] + line[p + len + 1..];
  }

  /** Joining the fields of a line with single spaces reproduces the line. */
  lemma TokenizeJoin(line: seq<char>)
    ensures TilesFrom(line, 0, Tokenize(line))
    ensures Join(TextsFrom(line, 0, Tokenize(line))) == line
  {
    TokenizeIff(line, Tokenize(line));
    TilesJoin(line, 0, Tokenize(line));
  }

  /** Spaces beyond the first are not separators: each begins the next field.
      "move  D1" splits as "move" and " D1". */
  lemma DoubleSpaceExample()
    ensures Tokenize("a  b") == [Field(0, 1), Field(2, 2)]
  {
    var fs := [Field(0, 1), Field(2, 2)];
    assert TilesFrom("a  b", 2, fs[1..]);
    TokenizeIff("a  b", fs);
  }

  // ---------------------------------------------------------------------
  // The scan as the source runs it

  /** parseFields: scans the line once, writing each field into `fields`.
      The array has room for MAX_FIELD_COUNT fields; where the source would
      write past it, the scan stops and reports an overflow. */
  method ParseFields(line: seq<char>, fields: array<Field>) returns (count: nat, overflow: bool)
    requires |line| < 256
    modifies fields
    ensures count <= fields.Length
    ensures !overflow ==> count == |Tokenize(line)| && fields[..count] == Tokenize(line)
    ensures !overflow ==> fields[count..] == old(fields[count..])
    ensures overflow ==> count == fields.Length < |Tokenize(line)| && fields[..] == Tokenize(line)[..count]
  {
    count, overflow := 0, false;
    var fieldStart: nat := 0;
    var i: nat := 0;
    while i < |line|
      invariant fieldStart <= i <= |line|
      invariant i == |line| ==> fieldStart == i
      invariant count <= fields.Length
      invariant fields[..count] + Scan(line, i, fieldStart) == Tokenize(line)
      invariant forall k :: count <= k < fields.Length ==> fields[k] == old(fields[k])
    {
      if (line[i] == ' ' && fieldStart < i) || (i == |line| - 1 && fieldStart <= i) {
        var field := Field(fieldStart, if i == |line| - 1 then i + 1 - fieldStart else i - fieldStart);
        assert Scan(line, i, fieldStart) == [field] + Scan(line, i + 1, i + 1);
        if count == fields.Length {
          assert fields[..] == fields[..count];
          return count, true;
        }
        ghost var done := fields[..count];
        fields[count] := field;
        assert fields[..count + 1] == done + [field];
        count := count + 1;
        fieldStart := i + 1;
      }
      i := i + 1;
    }
    assert fields[..count] + [] == fields[..count];
  }
}
