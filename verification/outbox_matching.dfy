/**
 When does a message seen on the air answer a message that is waiting in the
 outbox?  The exact answer goes through a joined key; a node may also append
 `{` and a sequence number to the text.
 */
module EchoMatching {
  import opened Text

  const NUL: char := '\0'

  function MatchKey(source: string, destination: string, message: string): string {
    Upper(Trim(source)) + [NUL] + Trim(destination) + [NUL] + message
  }

  predicate MessageMatches(sent: string, observed: string) {
    observed == sent ||
    (HasPrefix(observed, sent + "{") &&
     var suffix := TrimSuffix(observed[|sent| + 1..], "}");
     suffix != "" && AllDigits(suffix))
  }

  predicate NulFree(s: string) {
    NUL !in s
  }

  lemma TrimKeepsNulFree(s: string)
    requires NulFree(s)
    ensures NulFree(Trim(s)) && NulFree(Upper(Trim(s)))
  {
    var i, j := TrimIsSlice(s);
  }

  /** For NUL-free addresses equal keys mean equal normalised fields, and conversely. */
  lemma MatchKeyFields(s: string, d: string, m: string, s': string, d': string, m': string)
    requires NulFree(s) && NulFree(d) && NulFree(s') && NulFree(d')
    ensures MatchKey(s, d, m) == MatchKey(s', d', m') <==> Norm(s) == Norm(s') && Trim(d) == Trim(d') && m == m'
  {
    hide Trim, Upper;
    TrimKeepsNulFree(s);
    TrimKeepsNulFree(s');
    TrimKeepsNulFree(d);
    TrimKeepsNulFree(d');
    if MatchKey(s, d, m) == MatchKey(s', d', m') {
      var x, x' := Trim(d) + [NUL] + m, Trim(d') + [NUL] + m';
      assert MatchKey(s, d, m) == Norm(s) + [NUL] + x;
      assert MatchKey(s', d', m') == Norm(s') + [NUL] + x';
      FirstCutUnique(NUL, Norm(s), x, Norm(s'), x');
      FirstCutUnique(NUL, Trim(d), m, Trim(d'), m');
    }
  }

  /** With a NUL inside a destination two different messages do share a key. */
  lemma MatchKeyCollides()
    ensures MatchKey("A", "B\0C", "m") == MatchKey("A", "B", "C\0m")
  {
    TrimmedIsFixed("A");
    TrimmedIsFixed("B\0C");
    TrimmedIsFixed("B");
  }

  lemma NumberMatches(sent: string, n: string, observed: string)
    requires n != "" && AllDigits(n) && (observed == sent + "{" + n || observed == sent + "{" + n + "}")
    ensures MessageMatches(sent, observed)
  {
    var rest := observed[|sent| + 1..];
    assert observed[..|sent| + 1] == sent + "{";
    assert rest == n || rest == n + "}";
    assert n[|n| - 1] != '}';
    assert TrimSuffix(rest, "}") == n by {
      if rest == n { assert rest[|rest| - 1..] == [n[|n| - 1]]; }
    }
  }

  /** What `MessageMatches` means: the same text, or the text, `{`, a number and at most one `}`. */
  lemma MessageMatchesMeaning(sent: string, observed: string)
    ensures MessageMatches(sent, observed) <==>
      observed == sent ||
      exists n: string :: n != "" && AllDigits(n) && (observed == sent + "{" + n || observed == sent + "{" + n + "}")
  {
    if MessageMatches(sent, observed) && observed != sent {
      var rest := observed[|sent| + 1..];
      var n := TrimSuffix(rest, "}");
      assert observed == sent + "{" + rest;
      assert rest == n || rest == n + "}";
      assert observed == sent + "{" + n || observed == sent + "{" + n + "}";
    }
    forall n: string | n != "" && AllDigits(n) && (observed == sent + "{" + n || observed == sent + "{" + n + "}")
      ensures MessageMatches(sent, observed)
    {
      NumberMatches(sent, n, observed);
    }
  }

  /** The text before the last `{`. */
  function BeforeLastBrace(s: string): string {
    var i := LastIndexOf(s, '{');
    if i < 0 then s else s[..i]
  }

  /** A numbered echo determines the text it answers: all suffix matches share one text. */
  lemma SuffixMatchText(sent: string, observed: string)
    requires MessageMatches(sent, observed) && observed != sent
    ensures sent == BeforeLastBrace(observed)
  {
    var rest := observed[|sent| + 1..];
    var n := TrimSuffix(rest, "}");
    assert observed == sent + "{" + rest;
    assert rest == n || rest == n + "}";
    assert '{' !in rest;
    var i := LastIndexOf(observed, '{');
    assert observed == observed[..i] + "{" + observed[i + 1..];
    LastCutUnique('{', sent, rest, observed[..i], observed[i + 1..]);
  }
}
