/** Streams cut at line feeds. */
module LineStream {
  import opened Sequences
  import T = Text

  const LF: char := '\n'

  /** What `f` makes of the complete lines of a stream, in order. */
  function Results<X>(stream: string, f: string -> seq<X>): seq<X> {
    var i := T.IndexOf(stream, LF);
    if i < 0 then [] else f(stream[..i]) + Results(stream[i + 1..], f)
  }

  /** The unfinished line at the end of a stream. */
  function Unfinished(stream: string): string {
    var i := T.IndexOf(stream, LF);
    if i < 0 then stream else Unfinished(stream[i + 1..])
  }

  /** The lines of a stream are handled independently of each other. */
  lemma FirstLine<X>(line: string, rest: string, f: string -> seq<X>)
    requires LF !in line
    ensures Results(line + [LF] + rest, f) == f(line) + Results(rest, f)
    ensures Unfinished(line + [LF] + rest) == Unfinished(rest)
  {
    var s := line + [LF] + rest;
    T.IndexOfFirst(line, LF, rest);
    assert s[..|line|] == line && s[|line| + 1..] == rest;
  }

  lemma NoLine<X>(s: string, f: string -> seq<X>)
    requires LF !in s
    ensures Results(s, f) == [] && Unfinished(s) == s
  {}

  /** A line feed completes the unfinished line; any other byte completes nothing. */
  lemma {:induction false} OneMore<X>(s: string, x: char, f: string -> seq<X>)
    ensures Unfinished(s + [x]) == if x == LF then "" else Unfinished(s) + [x]
    ensures Results(s + [x], f) == Results(s, f) + if x == LF then f(Unfinished(s)) else []
    decreases |s|, 1
  {
    var i := T.IndexOf(s, LF);
    if i >= 0 {
      var first, rest := s[..i], s[i + 1..];
      assert s == first + [LF] + rest;
      assert s + [x] == first + [LF] + (rest + [x]);
      MoreBehindLine(first, rest, x, f);
    } else {
      MoreInLine(s, x, f);
    }
  }

  lemma MoreInLine<X>(s: string, x: char, f: string -> seq<X>)
    requires LF !in s
    ensures Unfinished(s + [x]) == if x == LF then "" else Unfinished(s) + [x]
    ensures Results(s + [x], f) == Results(s, f) + if x == LF then f(Unfinished(s)) else []
  {
    NoLine(s, f);
    if x == LF {
      assert s + [x] == s + [LF] + "";
      FirstLine(s, "", f);
      NoLine("", f);
    } else {
      NoLine(s + [x], f);
    }
  }

  lemma {:induction false} MoreBehindLine<X>(first: string, rest: string, x: char, f: string -> seq<X>)
    requires LF !in first
    ensures var s, t := first + [LF] + rest, first + [LF] + (rest + [x]);
      && Unfinished(t) == (if x == LF then "" else Unfinished(s) + [x])
      && Results(t, f) == Results(s, f) + if x == LF then f(Unfinished(s)) else []
    decreases |first| + 1 + |rest|, 0
  {
    OneMore(rest, x, f);
    FirstLine(first, rest, f);
    FirstLine(first, rest + [x], f);
    Assoc(f(first), Results(rest, f), if x == LF then f(Unfinished(rest)) else []);
  }

  /** Behind complete lines a stream starts afresh. */
  lemma {:induction false} AfterLines<X>(s: string, t: string, f: string -> seq<X>)
    requires Unfinished(s) == ""
    ensures Results(s + t, f) == Results(s, f) + Results(t, f) && Unfinished(s + t) == Unfinished(t)
  {
    var i := T.IndexOf(s, LF);
    if i < 0 {
      assert s + t == t;
    } else {
      var first, rest := s[..i], s[i + 1..];
      assert s == first + [LF] + rest && s + t == first + [LF] + (rest + t);
      AfterLines(rest, t, f);
      FirstLine(first, rest, f);
      FirstLine(first, rest + t, f);
      Assoc(f(first), Results(rest, f), Results(t, f));
    }
  }
}
