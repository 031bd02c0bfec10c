/**
 * Line-level text handling of the Simple NEM12 parser: the blank-line test
 * (Java's String.trim compared with "") and the field split
 * (Java's String.split(",") with its default limit of zero).
 */
module Fields {

  /** String.trim strips every character whose code is at most that of the space. */
  predicate IsTrimmable(ch: char) {
    ch <= ' '
  }

  /** Strips trimmable characters from the front. */
  function TrimStart(s: string): (t: string)
    ensures |t| <= |s| && t == s[|s| - |t|..]
    ensures t == [] || !IsTrimmable(t[0])
    ensures forall k :: 0 <= k < |s| - |t| ==> IsTrimmable(s[k])
  {
    if |s| > 0 && IsTrimmable(s[0]) then
      var t := TrimStart(s[1..]);
      assert s[1..][|s| - 1 - |t|..] == s[|s| - |t|..];
      assert forall k :: 1 <= k < |s| - |t| ==> s[k] == s[1..][k - 1];
      t
    else s
  }

  /** Strips trimmable characters from the back. */
  function TrimEnd(s: string): (t: string)
    ensures |t| <= |s| && t == s[..|t|]
    ensures t == [] || !IsTrimmable(t[|t| - 1])
    ensures forall k :: |t| <= k < |s| ==> IsTrimmable(s[k])
  {
    if |s| > 0 && IsTrimmable(s[|s| - 1]) then
      var t := TrimEnd(s[..|s| - 1]);
      assert s[..|s| - 1][..|t|] == s[..|t|];
      assert forall k :: |t| <= k < |s| - 1 ==> s[k] == s[..|s| - 1][k];
      t
    else s
  }

  /**
   * Java's String.trim: what is left once the trimmable characters are
   * stripped from both ends.
   */
  function Trim(s: string): (t: string)
    ensures |t| <= |s|
    ensures t == [] || (!IsTrimmable(t[0]) && !IsTrimmable(t[|t| - 1]))
  {
    var u := TrimStart(s);
    var t := TrimEnd(u);
    assert t != [] ==> t[0] == u[0];
    t
  }

  /** A line made only of trimmable characters. */
  predicate IsBlank(line: string) {
    forall k :: 0 <= k < |line| ==> IsTrimmable(line[k])
  }

  /** The parser's skip test "".equals(line.trim()) holds exactly for the blank lines. */
  lemma TrimEmptyIffBlank(line: string)
    ensures Trim(line) == "" <==> IsBlank(line)
  {
    var t := TrimStart(line);
    if Trim(line) == "" {
      assert t == [];
    } else {
      var u := Trim(line);
      assert u != [] && !IsTrimmable(u[0]);
      assert u[0] == t[0] == line[|line| - |t|];
    }
  }

  /** The field delimiter of the Simple NEM12 format. */
  const Delimiter: char := ','

  /** Glues fields back together with the delimiter between them. */
  function Join(fields: seq<string>): string {
    if |fields| == 0 then ""
    else if |fields| == 1 then fields[0]
    else fields[0] + [Delimiter] + Join(fields[1..])
  }

  /**
   * Every segment of s between delimiters, empty ones included: the list
   * String.split builds before it drops trailing empty strings.
   */
  function Pieces(s: string): (pieces: seq<string>)
    ensures |pieces| >= 1
    ensures forall k :: 0 <= k < |pieces| ==> Delimiter !in pieces[k]
  {
    if s == [] then [""]
    else if s[0] == Delimiter then [""] + Pieces(s[1..])
    else
      var rest := Pieces(s[1..]);
      [[s[0]] + rest[0]] + rest[1..]
  }

  /** Joining the pieces of s gives s back. */
  lemma {:induction false} JoinOfPieces(s: string)
    ensures Join(Pieces(s)) == s
    decreases |s|
  {
    if s != [] {
      var rest := Pieces(s[1..]);
      JoinOfPieces(s[1..]);
      var pieces := Pieces(s);
      if s[0] == Delimiter {
        assert pieces[1..] == rest;
      } else {
        assert pieces[1..] == rest[1..];
        if |rest| > 1 {
          assert Join(rest) == rest[0] + [Delimiter] + Join(rest[1..]);
        }
        assert Join(pieces) == [s[0]] + Join(rest);
      }
      assert s == [s[0]] + s[1..];
    }
  }

  /** Removes empty strings from the end, as String.split does with limit zero. */
  function DropTrailingEmpty(pieces: seq<string>): (kept: seq<string>)
    ensures |kept| <= |pieces| && kept == pieces[..|kept|]
    ensures kept == [] || kept[|kept| - 1] != ""
    ensures forall k :: |kept| <= k < |pieces| ==> pieces[k] == ""
  {
    if |pieces| > 0 && pieces[|pieces| - 1] == "" then DropTrailingEmpty(pieces[..|pieces| - 1])
    else pieces
  }

  /**
   * line.split(","): a line without a delimiter is returned whole; otherwise
   * the segments between delimiters, with trailing empty segments removed
   * (so a line made only of delimiters has no fields at all).
   */
  function Split(line: string): (fields: seq<string>)
    ensures forall k :: 0 <= k < |fields| ==> Delimiter !in fields[k]
    ensures Delimiter !in line ==> fields == [line]
    ensures Delimiter in line ==>
      && |fields| <= |Pieces(line)|
      && fields == Pieces(line)[..|fields|]
      && (forall k :: |fields| <= k < |Pieces(line)| ==> Pieces(line)[k] == "")
      && (fields == [] || fields[|fields| - 1] != "")
  {
    if Delimiter !in line then [line] else DropTrailingEmpty(Pieces(line))
  }

  /** Splitting a delimiter-free prefix off: it joins the first piece. */
  lemma {:induction false} PiecesOfPrefix(a: string, b: string)
    requires Delimiter !in a
    ensures Pieces(a + b) == [a + Pieces(b)[0]] + Pieces(b)[1..]
    decreases |a|
  {
    if a != [] {
      assert (a + b)[0] == a[0] && (a + b)[1..] == a[1..] + b;
      PiecesOfPrefix(a[1..], b);
      assert [a[0]] + (a[1..] + Pieces(b)[0]) == a + Pieces(b)[0];
    } else {
      assert a + b == b && a + Pieces(b)[0] == Pieces(b)[0];
    }
  }

  /** Pieces undoes Join on delimiter-free fields. */
  lemma {:induction false} PiecesOfJoin(fields: seq<string>)
    requires |fields| >= 1
    requires forall k :: 0 <= k < |fields| ==> Delimiter !in fields[k]
    ensures Pieces(Join(fields)) == fields
    decreases |fields|
  {
    if |fields| == 1 {
      PiecesOfPrefix(fields[0], "");
      assert fields[0] + "" == fields[0];
    } else {
      var rest := Join(fields[1..]);
      PiecesOfJoin(fields[1..]);
      var tail := [Delimiter] + rest;
      PiecesOfDelimited(rest);
      assert Pieces(tail)[0] == "" && Pieces(tail)[1..] == fields[1..];
      PiecesOfPrefix(fields[0], tail);
      assert Join(fields) == fields[0] + tail;
      assert fields[0] + "" == fields[0];
      assert fields == [fields[0]] + fields[1..];
    }
  }

  /** A leading delimiter contributes an empty first piece. */
  lemma PiecesOfDelimited(rest: string)
    ensures Pieces([Delimiter] + rest) == [""] + Pieces(rest)
  {
    var tail := [Delimiter] + rest;
    assert tail[0] == Delimiter && tail[1..] == rest;
  }

  /**
   * Split undoes Join whenever the fields hold no delimiter and the last one
   * is not empty (a trailing empty field would be dropped).
   */
  lemma SplitOfJoin(fields: seq<string>)
    requires |fields| >= 1
    requires forall k :: 0 <= k < |fields| ==> Delimiter !in fields[k]
    requires fields[|fields| - 1] != ""
    ensures Split(Join(fields)) == fields
  {
    PiecesOfJoin(fields);
  }

  /** Pieces of a string made only of delimiters are all empty. */
  lemma {:induction false} PiecesOfDelimiters(s: string)
    requires forall k :: 0 <= k < |s| ==> s[k] == Delimiter
    ensures forall k :: 0 <= k < |Pieces(s)| ==> Pieces(s)[k] == ""
    decreases |s|
  {
    if s != [] {
      PiecesOfDelimiters(s[1..]);
    }
  }

  /** Join of empty strings is made only of delimiters. */
  lemma {:induction false} JoinOfEmpties(fields: seq<string>)
    requires forall k :: 0 <= k < |fields| ==> fields[k] == ""
    ensures forall k :: 0 <= k < |Join(fields)| ==> Join(fields)[k] == Delimiter
    decreases |fields|
  {
    if |fields| > 1 {
      JoinOfEmpties(fields[1..]);
      assert Join(fields) == [Delimiter] + Join(fields[1..]);
    }
  }

  /**
   * A line has no fields at all exactly when it is non-empty and made only of
   * delimiters; indexing its first field then fails.
   */
  lemma NoFieldsIffOnlyDelimiters(line: string)
    ensures Split(line) == [] <==> (|line| > 0 && forall k :: 0 <= k < |line| ==> line[k] == Delimiter)
  {
    if |line| > 0 && forall k :: 0 <= k < |line| ==> line[k] == Delimiter {
      assert line[0] == Delimiter;
      PiecesOfDelimiters(line);
    }
    if Split(line) == [] {
      assert Delimiter in line;
      JoinOfEmpties(Pieces(line));
      JoinOfPieces(line);
    }
  }
}
