/** getLength and doesMatch: NUL-terminated command names against a field
    of the line. */
module Names {

  /** getLength's scan stops inside the buffer: a NUL, or the cap at index
      255, occurs in it. */
  predicate CReadable(buf: seq<char>) {
    ReadableFrom(buf, 0)
  }

  /** A NUL or index 255 occurs in the buffer at `i` or later. */
  predicate ReadableFrom(buf: seq<char>, i: nat) {
    (i <= 255 < |buf|) || (i <= |buf| && '\0' in buf[i..])
  }

  /** The index where getLength's scan stops, from index `i` on. */
  function LengthFrom(buf: seq<char>, i: nat): (n: nat)
    requires i <= 255
    requires ReadableFrom(buf, i)
    ensures i <= n <= 255 && n < |buf|
    ensures buf[n] == '\0' || n == 255
    ensures forall j :: i <= j < n ==> buf[j] != '\0'
    decreases 255 - i
  {
    if buf[i] == '\0' || i == 255 then i
    else
      assert buf[i..] == [buf[i]] + buf[i + 1..];
      LengthFrom(buf, i + 1)
  }

  /** The length of a NUL-terminated string: the index of its first NUL, or
      255 when there is none before that index. */
  function CLength(buf: seq<char>): (n: nat)
    requires CReadable(buf)
    ensures n <= 255 && n < |buf|
    ensures n < 255 ==> buf[n] == '\0'
    ensures forall j :: 0 <= j < n ==> buf[j] != '\0'
  {
    LengthFrom(buf, 0)
  }

  /** The characters of a NUL-terminated string. */
  function NameOf(buf: seq<char>): (name: seq<char>)
    requires CReadable(buf)
    ensures |name| == CLength(buf) && '\0' !in name
  {
    buf[..CLength(buf)]
  }

  /** A buffer holding a name of at most 254 characters, then a NUL, gives
      that name back. */
  lemma NameOfTerminated(name: seq<char>, pad: seq<char>)
    requires '\0' !in name && |name| < 255
    ensures CReadable(name + ['\0'] + pad)
    ensures NameOf(name + ['\0'] + pad) == name
  {
    var buf := name + ['\0'] + pad;
    assert buf[|name|] == '\0';
    assert forall j :: 0 <= j < |name| ==> buf[j] == name[j];
    assert buf[..CLength(buf)] == name;
  }

  /** getLength: counts characters up to the first NUL, giving up at 255. */
  method GetLength(buf: seq<char>) returns (n: nat)
    requires CReadable(buf)
    ensures n == CLength(buf)
  {
    n := 0;
    while buf[n] != '\0'
      invariant n <= 255 && n <= CLength(buf)
      invariant LengthFrom(buf, n) == CLength(buf)
      decreases 255 - n
    {
      if n == 255 {
        break;
      }
      n := n + 1;
    }
  }

  /** doesMatch: the field `input[..length]` is exactly the command name,
      same length and same characters. */
  method DoesMatch(cname: seq<char>, input: seq<char>, length: nat) returns (r: bool)
    requires CReadable(cname)
    requires length <= |input|
    ensures r <==> NameOf(cname) == input[..length]
  {
    var nameLen := GetLength(cname);
    if nameLen != length {
      return false;
    }
    r := true;
    var i := 0;
    while i < length
      invariant i <= length
      invariant cname[..i] == input[..i]
    {
      if cname[i] != input[i] {
        assert NameOf(cname)[i] != input[..length][i];
        return false;
      }
      i := i + 1;
    }
    assert NameOf(cname) == cname[..length];
  }
}
