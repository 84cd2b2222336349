/**
 * Joining output lines with a newline, as Go's `strings.Join(lines, "\n")`
 * does, and its inverse, splitting at every newline as `strings.Split(s, "\n")`.
 */
module Lines {

  const Newline: char := '\n'

  /** `strings.Join(lines, "\n")`: no lines give "", one line gives itself. */
  function Join(lines: seq<string>): string
  {
    if |lines| == 0 then ""
    else if |lines| == 1 then lines[0]
    else lines[0] + [Newline] + Join(lines[1..])
  }

  /** `strings.Split(s, "\n")`: the pieces between newlines; never empty. */
  function Split(s: string): (pieces: seq<string>)
    ensures |pieces| >= 1
    ensures forall i | 0 <= i < |pieces| :: Newline !in pieces[i]
    decreases |s|
  {
    if s == [] then [""]
    else if s[0] == Newline then [""] + Split(s[1..])
    else
      var rest := Split(s[1..]);
      [[s[0]] + rest[0]] + rest[1..]
  }

  /** Splitting a text that begins with a newline-free prefix glues the prefix to the first piece. */
  lemma {:induction false} SplitAfterPlain(a: string, c: string)
    requires Newline !in a
    ensures Split(a + c) == [a + Split(c)[0]] + Split(c)[1..]
    decreases |a|
  {
    if a != [] {
      assert (a + c)[0] == a[0];
      assert (a + c)[1..] == a[1..] + c;
      SplitAfterPlain(a[1..], c);
      assert [a[0]] + (a[1..] + Split(c)[0]) == a + Split(c)[0];
    } else {
      var pieces := Split(c);
      assert a + c == c;
      assert a + pieces[0] == pieces[0];
      assert pieces == [pieces[0]] + pieces[1..];
    }
  }

  /** Splitting undoes joining, for one or more lines that contain no newline. */
  lemma {:induction false} SplitJoin(lines: seq<string>)
    requires |lines| >= 1
    requires forall i | 0 <= i < |lines| :: Newline !in lines[i]
    ensures Split(Join(lines)) == lines
    decreases |lines|
  {
    if |lines| == 1 {
      SplitAfterPlain(lines[0], "");
      assert lines[0] + "" == lines[0];
    } else {
      var tail := Join(lines[1..]);
      SplitJoin(lines[1..]);
      SplitAfterPlain(lines[0], [Newline] + tail);
      assert ([Newline] + tail)[1..] == tail;
      assert lines[0] + [Newline] + tail == lines[0] + ([Newline] + tail);
      assert lines[0] + "" == lines[0];
      assert lines == [lines[0]] + lines[1..];
    }
  }

  /** Joining undoes splitting, for every text. */
  lemma {:induction false} JoinSplit(s: string)
    ensures Join(Split(s)) == s
    decreases |s|
  {
    if s == [] {
    } else if s[0] == Newline {
      JoinSplit(s[1..]);
      var rest := Split(s[1..]);
      assert Split(s) == [""] + rest;
      assert s == [Newline] + s[1..];
    } else {
      JoinSplit(s[1..]);
      var rest := Split(s[1..]);
      JoinConsFirst(s[0], rest);
      assert s == [s[0]] + s[1..];
    }
  }

  /** Prepending a character to the first line prepends it to the joined text. */
  lemma {:induction false} JoinConsFirst(c: char, lines: seq<string>)
    requires |lines| >= 1
    ensures Join([[c] + lines[0]] + lines[1..]) == [c] + Join(lines)
  {
  }

  /**
   * The joined text equals a non-empty, newline-free text exactly when the
   * lines are that one text: two or more lines always put a newline in.
   */
  lemma {:induction false} JoinIsSingleLine(lines: seq<string>, t: string)
    requires t != "" && Newline !in t
    ensures Join(lines) == t <==> lines == [t]
  {
  }
}
