/**
 * Bytes of the line-oriented wire format: a command line ends with a line
 * feed, optionally preceded by a carriage return, and the command handed to
 * the dispatcher is read as a NUL-terminated C string from the start of the
 * input buffer.
 */
module Lines {

  type Byte = bv8
  type Bytes = seq<Byte>

  const NUL: Byte := 0
  const LF: Byte := 10
  const CR: Byte := 13

  /** The C string that starts at buf[0]: every byte before the first NUL, or all of buf if it has none. */
  function CString(buf: Bytes): (r: Bytes)
    ensures |r| <= |buf| && r == buf[..|r|]
    ensures NUL !in r
    ensures |r| < |buf| ==> buf[|r|] == NUL
  {
    if buf == [] || buf[0] == NUL then [] else [buf[0]] + CString(buf[1..])
  }

  /** A line with one trailing carriage return taken off. */
  function StripCR(line: Bytes): (r: Bytes)
    ensures r == line || (r + [CR] == line)
  {
    if |line| > 0 && line[|line| - 1] == CR then line[..|line| - 1] else line
  }

  /**
   * The buffer after the framer has terminated the line whose line feed is at
   * index i: that byte becomes NUL, and so does a carriage return just before it.
   */
  function Terminate(buf: Bytes, i: nat): (r: Bytes)
    requires i < |buf| && buf[i] == LF
    ensures |r| == |buf| && r[i] == NUL
    ensures r[..i] + [NUL] == StripCR(buf[..i]) + (if StripCR(buf[..i]) == buf[..i] then [NUL] else [NUL, NUL])
    ensures r[i + 1..] == buf[i + 1..]
  {
    var b := buf[i := NUL];
    if i > 0 && b[i - 1] == CR then b[i - 1 := NUL] else b
  }

  /** Reading a C string stops at the first NUL, whatever follows it. */
  lemma {:induction false} CStringStopsAtNul(x: Bytes, y: Bytes)
    ensures CString(x + [NUL] + y) == CString(x)
  {
    if x == [] {
    } else {
      assert (x + [NUL] + y)[1..] == x[1..] + [NUL] + y;
      if x[0] != NUL {
        CStringStopsAtNul(x[1..], y);
      }
    }
  }

  /**
   * The command the framer passes on for the line feed at index i is the text
   * before it, without one trailing carriage return and cut at an embedded NUL;
   * when that text holds no NUL, the command is exactly the stripped line.
   */
  lemma CommandText(buf: Bytes, i: nat)
    requires i < |buf| && buf[i] == LF
    ensures CString(Terminate(buf, i)) == CString(StripCR(buf[..i]))
    ensures NUL !in buf[..i] ==> CString(Terminate(buf, i)) == StripCR(buf[..i])
  {
    var t := Terminate(buf, i);
    var line := StripCR(buf[..i]);
    assert t == t[..i] + [NUL] + t[i + 1..];
    if line == buf[..i] {
      assert t[..i] == line;
      CStringStopsAtNul(line, t[i + 1..]);
    } else {
      assert t[..i] == line + [NUL];
      assert t == line + [NUL] + ([NUL] + t[i + 1..]);
      CStringStopsAtNul(line, [NUL] + t[i + 1..]);
    }
  }
}
