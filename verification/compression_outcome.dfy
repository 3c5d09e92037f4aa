/** What a client sees of a compressed response: types, status and header, without the terms of the writer. */
module CompressionOutcome {
  import opened Text
  import opened CompressedResponse

  // ----- content types

  lemma PlainType(ct: string)
    requires Trimmed(ct) && forall k :: 0 <= k < |ct| ==> ct[k] != ';' && !('A' <= ct[k] <= 'Z')
    ensures Lower(Trim(Before(ct, ';'))) == ct
  {
    BeforeIsFree(ct, ';');
    TrimmedIsFixed(ct);
  }

  lemma HtmlIsListed()
    ensures StartsLikeListed("text/html") && !IsEventStream("text/html")
  {
    hide Lower, Trim, Before;
    var ct := "text/html";
    PlainType(ct);
    assert ct[..5] == "text/" == COMPRESSIBLE_PREFIXES[0];
    assert COMPRESSIBLE_PREFIXES[0] <= ct;
    ShortIsNoStream(ct);
  }

  lemma ShortIsNoStream(ct: string)
    requires |ct| < |"text/event-stream"|
    ensures !IsEventStream(ct)
  {
    assert |Lower(ct)| == |ct|;
  }

  /** The only listed type that starts like an image is SVG. */
  lemma ImagesListed(i: nat)
    requires i < |COMPRESSIBLE_PREFIXES| && COMPRESSIBLE_PREFIXES[i] != "" && COMPRESSIBLE_PREFIXES[i][0] == 'i'
    ensures COMPRESSIBLE_PREFIXES[i] == "image/svg+xml"
  {}

  lemma NoneIsEmpty()
    ensures "" !in COMPRESSIBLE_PREFIXES
  {}

  lemma PngIsNotListed()
    ensures !StartsLikeListed("image/png")
  {
    hide Lower, Trim, Before, COMPRESSIBLE_PREFIXES;
    var ct := "image/png";
    PlainType(ct);
    NoneIsEmpty();
    forall i | 0 <= i < |COMPRESSIBLE_PREFIXES| ensures !(COMPRESSIBLE_PREFIXES[i] <= ct) {
      var prefix := COMPRESSIBLE_PREFIXES[i];
      assert prefix in COMPRESSIBLE_PREFIXES;
      if prefix[0] == 'i' { ImagesListed(i); }
    }
  }

  /** Letters are lowered, and their neighbours in the code left alone. */
  lemma LowerLetters()
    ensures Lower("ABYZ abyz @[`{ 019-") == "abyz abyz @[`{ 019-"
  {}

  lemma LowerHtml()
    ensures Lower("TEXT/HTML") == "text/html"
  {}

  /** Case does not matter, and parameters do not either. */
  lemma CaseIsIgnored()
    ensures StartsLikeListed("TEXT/HTML; charset=UTF-8")
  {
    hide Lower, Before, Trim;
    assert "TEXT/HTML; charset=UTF-8" == "TEXT/HTML" + [';'] + " charset=UTF-8";
    BeforeFirst("TEXT/HTML", ';', " charset=UTF-8");
    TrimmedIsFixed("TEXT/HTML");
    LowerHtml();
    assert "text/html"[..5] == "text/" == COMPRESSIBLE_PREFIXES[0];
    assert COMPRESSIBLE_PREFIXES[0] <= "text/html";
  }

  /** One write of at least the threshold: HTML goes out as gzip, a PNG image as it is. */
  method ServeBody(min: nat, detect: Detector, contentType: string, body: string) returns (wire: seq<Wire>)
    requires 0 < min <= |body|
    ensures Decode(wire) == Some(body)
    ensures contentType == "text/html" ==> IsGzip(wire)
    ensures contentType == "image/png" ==> !IsGzip(wire)
  {
    var start, ops := Headers("", "", contentType, None, ""), [Write(body)];
    var sent;
    sent, wire := Serve(min, detect, start, ops);
    assert ops[..0] == [] && ops[..1] == ops && Writes(ops) == "" + body == body;
    HtmlIsListed();
    PngIsNotListed();
    if contentType == "text/html" {
      assert GzipAt(start, ops, min, detect, 0);
    }
  }

  // ----- the status

  /** The last status set among the first `n` operations. */
  predicate LastStatus(ops: seq<Op>, n: nat, i: int) {
    0 <= i < n <= |ops| && ops[i].WriteHeader? && forall k :: i < k < n ==> !ops[k].WriteHeader?
  }

  lemma {:induction false} LastCodeIff(ops: seq<Op>)
    ensures forall i :: LastStatus(ops, |ops|, i) ==> LastCode(ops) == ops[i].code
    ensures (forall k :: 0 <= k < |ops| ==> !ops[k].WriteHeader?) ==> LastCode(ops) == 0
  {
    if ops != [] {
      var n := |ops| - 1;
      LastCodeIff(ops[..n]);
      forall i | LastStatus(ops, |ops|, i) ensures LastCode(ops) == ops[i].code {
        if i < n { assert LastStatus(ops[..n], n, i); }
      }
    }
  }

  lemma StatusOf(ops: seq<Op>, min: nat)
    ensures var d := Decision(ops, min); var n := if d < |ops| then d + 1 else |ops|;
      StatusSent(ops, min) == StatusOrOk(LastCode(ops[..n]))
  {
    hide Decision, LastCode, StatusOrOk;
    assert ops[..|ops|] == ops;
  }

  lemma LastCodeOf(ops: seq<Op>, n: nat)
    requires n <= |ops|
    ensures forall i :: LastStatus(ops, n, i) ==> LastCode(ops[..n]) == ops[i].code
    ensures (forall k :: 0 <= k < n ==> !ops[k].WriteHeader?) ==> LastCode(ops[..n]) == 0
  {
    hide LastCode;
    var front := ops[..n];
    LastCodeIff(front);
    forall i | LastStatus(ops, n, i) ensures LastStatus(front, n, i) && front[i] == ops[i] {}
  }

  /** The status that goes out is the last one up to the decision, and 200 if there is none or it is 0. */
  lemma StatusIsLast(ops: seq<Op>, min: nat)
    ensures var d := Decision(ops, min); var n := if d < |ops| then d + 1 else |ops|;
      && (forall i :: LastStatus(ops, n, i) ==> StatusSent(ops, min) == if ops[i].code == 0 then 200 else ops[i].code)
      && ((forall k :: 0 <= k < n ==> !ops[k].WriteHeader?) ==> StatusSent(ops, min) == 200)
  {
    hide Decision, LastCode, StatusSent;
    var d := Decision(ops, min);
    StatusOf(ops, min);
    LastCodeOf(ops, if d < |ops| then d + 1 else |ops|);
  }

  // ----- the Vary header

  /** `list[i..j]` is an element of the comma-separated list and names `token`, in whatever case. */
  predicate TokenAt(list: string, token: string, i: int, j: int) {
    && 0 <= i <= j <= |list| && (i == 0 || list[i - 1] == ',') && (j == |list| || list[j] == ',')
    && ',' !in list[i..j] && Lower(Trim(list[i..j])) == Lower(token)
  }

  lemma {:induction false} BeforeIsPrefix(s: string, c: char)
    ensures |Before(s, c)| <= |s| && Before(s, c) == s[..|Before(s, c)|]
    ensures |Before(s, c)| < |s| ==> s[|Before(s, c)|] == c
    ensures c !in Before(s, c)
  {
    if s != "" && s[0] != c { BeforeIsPrefix(s[1..], c); }
  }

  lemma TokenShifts(list: string, token: string, m: nat, i: nat, j: nat)
    requires m < |list| && list[m] == ',' && i <= j <= |list| - m - 1
    ensures TokenAt(list[m + 1..], token, i, j) <==> TokenAt(list, token, m + 1 + i, m + 1 + j)
  {
    assert list[m + 1..][i..j] == list[m + 1 + i..m + 1 + j];
  }

  lemma {:induction false} HasTokenIff(list: string, token: string)
    ensures HasToken(list, token) <==> exists i, j :: TokenAt(list, token, i, j)
    decreases |list|
  {
    hide Before, Lower, Trim;
    var m := |Before(list, ',')|;
    BeforeIsPrefix(list, ',');
    if Lower(Trim(list[..m])) == Lower(token) {
      assert list[0..m] == list[..m];
      assert TokenAt(list, token, 0, m);
    }
    if m < |list| {
      var rest := list[m + 1..];
      HasTokenIff(rest, token);
      if i, j :| TokenAt(rest, token, i, j) {
        TokenShifts(list, token, m, i, j);
      }
    }
    if i, j :| TokenAt(list, token, i, j) {
      FirstOrLater(list, token, m, i, j);
    }
  }

  /** An element is the first one, or lies behind the first comma. */
  lemma FirstOrLater(list: string, token: string, m: nat, i: nat, j: nat)
    requires TokenAt(list, token, i, j)
    requires m <= |list| && ',' !in list[..m] && (m < |list| ==> list[m] == ',')
    ensures (i == 0 && j == m) || (m < i && m < |list| && TokenAt(list[m + 1..], token, i - m - 1, j - m - 1))
  {
    hide Lower, Trim;
    assert forall k :: 0 <= k < m ==> list[k] == list[..m][k];
    assert forall k :: i <= k < j ==> list[k] == list[i..j][k - i];
    if i > 0 {
      TokenShifts(list, token, m, i - m - 1, j - m - 1);
    }
  }

  lemma FirstToken(token: string)
    requires ',' !in token && Trimmed(token)
    ensures TokenAt(token, token, 0, |token|)
  {
    TrimmedIsFixed(token);
    assert token[0..|token|] == token;
  }

  lemma AddedToken(list: string, token: string)
    requires ',' !in token && Trimmed(token)
    ensures var v := list + ", " + token; TokenAt(v, token, |list| + 1, |v|)
  {
    var v := list + ", " + token;
    assert v[|list| + 1..|v|] == " " + token;
    assert (" " + token)[1..] == token;
    assert Trim(" " + token) == Trim(token);
  }

  /** A named token is not empty, so an empty list has none. */
  lemma NoToken(token: string)
    requires token != "" && Trimmed(token)
    ensures forall i, j :: !TokenAt("", token, i, j)
  {
    TrimmedIsFixed(token);
  }

  /** A compressed response varies by encoding: what the handler set is kept, and the token added once. */
  lemma VaryNamesEncoding(vary: string)
    ensures var v := AddVary(vary, "Accept-Encoding");
      && (exists i, j :: TokenAt(v, "Accept-Encoding", i, j))
      && (v == vary <==> exists i, j :: TokenAt(vary, "Accept-Encoding", i, j))
      && (v != vary ==> v == (if vary == "" then "" else vary + ", ") + "Accept-Encoding")
  {
    hide Lower, Trim, HasToken, TokenAt;
    var v := AddVary(vary, "Accept-Encoding");
    HasTokenIff(vary, "Accept-Encoding");
    NoToken("Accept-Encoding");
    if vary == "" {
      FirstToken("Accept-Encoding");
    } else if v != vary {
      AddedToken(vary, "Accept-Encoding");
    }
  }
}
