/**
 The brace scanner of the console decoder and the texts it recognises.

 An object text is `{`, a body and `}`; a body is any sequence of plain
 characters, quoted strings and nested object texts.  Every JSON object
 (section 4 of RFC 8259) is one, whatever its strings (section 7) contain.
 */
module ObjectText {
  import opened Sequences

  // ----- the grammar, as trees

  datatype StrItem = Chr(c: char) | Esc(c: char)

  datatype Item = Plain(c: char) | Quoted(body: seq<StrItem>) | Nested(items: Items)

  datatype Items = Nil | Cons(head: Item, tail: Items)

  predicate WfStr(body: seq<StrItem>) {
    forall i :: 0 <= i < |body| && body[i].Chr? ==> body[i].c != '"' && body[i].c != '\\'
  }

  predicate WfItem(item: Item) {
    match item
    case Plain(c) => c != '"' && c != '{' && c != '}'
    case Quoted(body) => WfStr(body)
    case Nested(items) => Wf(items)
  }

  predicate Wf(items: Items) {
    items.Cons? ==> WfItem(items.head) && Wf(items.tail)
  }

  /** No nested object at this level. */
  predicate Flat(items: Items) {
    items.Cons? ==> !items.head.Nested? && Flat(items.tail)
  }

  function StrText(body: seq<StrItem>): string {
    if body == [] then ""
    else (if body[0].Chr? then [body[0].c] else ['\\', body[0].c]) + StrText(body[1..])
  }

  function ItemText(item: Item): string {
    match item
    case Plain(c) => [c]
    case Quoted(body) => "\"" + StrText(body) + "\""
    case Nested(items) => "{" + Text(items) + "}"
  }

  function Text(items: Items): string {
    match items
    case Nil => ""
    case Cons(head, tail) => ItemText(head) + Text(tail)
  }

  ghost predicate IsBody(t: string) {
    exists items :: Wf(items) && Text(items) == t
  }

  ghost predicate IsObject(t: string) {
    exists body :: Wf(body) && t == "{" + Text(body) + "}"
  }

  /** Brace-free text (outside its strings) and then one whole object. */
  ghost predicate IsBalanced(t: string) {
    exists pre, body :: Wf(pre) && Flat(pre) && Wf(body) && t == Text(pre) + "{" + Text(body) + "}"
  }

  // ----- the scanner

  function Shift(k: nat, r: int): int {
    if r < 0 then -1 else k + r
  }

  /**
   How many characters of `data` the scanner consumes until the braces balance,
   when it starts in the given state; -1 when they never do.
   */
  function Scan(data: string, depth: int, inString: bool, escaped: bool): (r: int)
    ensures r == -1 || 0 < r <= |data|
  {
    if data == "" then -1
    else
      var c, rest := data[0], data[1..];
      if inString then
        if escaped then Shift(1, Scan(rest, depth, true, false))
        else if c == '\\' then Shift(1, Scan(rest, depth, true, true))
        else Shift(1, Scan(rest, depth, c != '"', false))
      else if c == '"' then Shift(1, Scan(rest, depth, true, false))
      else if c == '{' then Shift(1, Scan(rest, depth + 1, false, false))
      else if c == '}' then
        if depth == 1 then 1
        else if depth < 1 then -1
        else Shift(1, Scan(rest, depth - 1, false, false))
      else Shift(1, Scan(rest, depth, false, false))
  }

  lemma Behind(c: char, s: string)
    ensures ([c] + s)[1..] == s
  {}

  /** One item of a string, behind which the scanner is in the string still. */
  lemma ScanStrItem(item: StrItem, tail: string, depth: int)
    requires item.Chr? ==> item.c != '"' && item.c != '\\'
    ensures var t := if item.Chr? then [item.c] else ['\\', item.c];
      Scan(t + tail, depth, true, false) == Shift(|t|, Scan(tail, depth, true, false))
  {
    if item.Chr? {
      Behind(item.c, tail);
    } else {
      var data := ['\\', item.c] + tail;
      assert data == ['\\'] + ([item.c] + tail);
      Behind('\\', [item.c] + tail);
      Behind(item.c, tail);
    }
  }

  /** Inside a string the scanner stops exactly behind the closing quote. */
  lemma {:induction false} ScanString(body: seq<StrItem>, rest: string, depth: int)
    requires WfStr(body)
    ensures Scan(StrText(body) + "\"" + rest, depth, true, false) ==
            Shift(|StrText(body)| + 1, Scan(rest, depth, false, false))
    decreases |body|
  {
    if body == [] {
      assert "" + "\"" + rest == ['"'] + rest;
      Behind('"', rest);
    } else {
      var first := if body[0].Chr? then [body[0].c] else ['\\', body[0].c];
      var tail := StrText(body[1..]) + "\"" + rest;
      ScanString(body[1..], rest, depth);
      ScanStrItem(body[0], tail, depth);
      Regroup(first, StrText(body[1..]), "\"", rest);
    }
  }

  lemma Regroup<X>(a: seq<X>, b: seq<X>, c: seq<X>, d: seq<X>)
    ensures a + b + c + d == a + (b + c + d)
  {}

  /** A body leaves the nesting depth where it was. */
  lemma {:induction false} ScanBody(items: Items, rest: string, depth: int)
    requires Wf(items) && depth >= 0 && (depth > 0 || Flat(items))
    ensures Scan(Text(items) + rest, depth, false, false) == Shift(|Text(items)|, Scan(rest, depth, false, false))
    decreases items
  {
    match items
    case Nil => assert "" + rest == rest;
    case Cons(head, tail) =>
      hide Scan, ItemText, WfItem;
      ScanBody(tail, rest, depth);
      ScanItem(head, Text(tail) + rest, depth);
      Assoc(ItemText(head), Text(tail), rest);
  }

  lemma Bracketed(open: char, s: string, close: char, rest: string)
    ensures ([open] + s + [close] + rest)[1..] == s + ([close] + rest)
  {}

  lemma {:induction false} ScanItem(item: Item, rest: string, depth: int)
    requires WfItem(item) && depth >= 0 && (depth > 0 || !item.Nested?)
    ensures Scan(ItemText(item) + rest, depth, false, false) == Shift(|ItemText(item)|, Scan(rest, depth, false, false))
    decreases item
  {
    var data := ItemText(item) + rest;
    match item
    case Plain(c) =>
      assert data[1..] == rest;
    case Quoted(body) =>
      Bracketed('"', StrText(body), '"', rest);
      ScanString(body, rest, depth);
      assert StrText(body) + "\"" + rest == StrText(body) + (['"'] + rest);
    case Nested(inner) =>
      var close := ['}'] + rest;
      Bracketed('{', Text(inner), '}', rest);
      ScanBody(inner, close, depth + 1);
      Behind('}', rest);
  }

  /** The scanner accepts every balanced text, and stops at its end. */
  lemma ScanComplete(pre: Items, body: Items, rest: string)
    requires Wf(pre) && Flat(pre) && Wf(body)
    ensures Scan(Text(pre) + "{" + Text(body) + "}" + rest, 0, false, false) == |Text(pre) + "{" + Text(body) + "}"|
  {
    var close := "}" + rest;
    var open := "{" + (Text(body) + close);
    assert Text(pre) + "{" + Text(body) + "}" + rest == Text(pre) + open;
    assert Scan(close, 1, false, false) == 1;
    ScanBody(body, close, 1);
    assert open[1..] == Text(body) + close;
    ScanBody(pre, open, 0);
  }

  // ----- what the scanner accepts can be parsed

  lemma Enclosed(data: string, k: nat, t: string)
    requires k < |data| - 1 && data[1..][..k] == t
    ensures data[..k + 2] == [data[0]] + t + [data[1..][k]]
    ensures data[k + 2..] == data[1..][k + 1..]
  {}

  lemma Prefixed(data: string, m: nat, j: nat)
    requires m + j < |data|
    ensures data[..m + j] == data[..m] + data[m..][..j]
    ensures data[m..][j] == data[m + j] && data[m..][j + 1..] == data[m + j + 1..]
  {}

  lemma StrCons(item: StrItem, body: seq<StrItem>)
    ensures StrText([item] + body) == StrText([item]) + StrText(body)
    ensures StrText([item]) == if item.Chr? then [item.c] else ['\\', item.c]
  {
    assert ([item] + body)[1..] == body;
    assert [item][1..] == [];
  }

  /** One step of the scanner inside a string: over an escaped pair or a single character. */
  lemma StringStep(data: string, depth: int) returns (m: nat)
    requires Scan(data, depth, true, false) > 0 && data[0] != '"'
    ensures m == (if data[0] == '\\' then 2 else 1) && m <= |data|
    ensures Scan(data, depth, true, false) == m + Scan(data[m..], depth, true, false)
    ensures Scan(data[m..], depth, true, false) > 0
  {
    m := if data[0] == '\\' then 2 else 1;
    assert m == 2 ==> data[1..][1..] == data[2..];
  }

  /** The item in front of a parsed string. */
  lemma StringCons(data: string, item: StrItem, b: seq<StrItem>, j: nat)
    requires data != "" && data[0] != '"' && WfStr(b)
    requires item == if data[0] == '\\' && |data| > 1 then Esc(data[1]) else Chr(data[0])
    requires data[0] == '\\' ==> |data| > 1
    requires var m := if item.Esc? then 2 else 1; m + j < |data| && data[m..][..j] == StrText(b)
    ensures var m := if item.Esc? then 2 else 1; WfStr([item] + b) && data[..m + j] == StrText([item] + b)
  {
    var m := if item.Esc? then 2 else 1;
    StrCons(item, b);
    Prefixed(data, m, j);
  }

  lemma {:induction false} ParseString(data: string, depth: int) returns (body: seq<StrItem>, k: nat)
    requires Scan(data, depth, true, false) > 0
    ensures k < |data| && WfStr(body) && data[..k] == StrText(body) && data[k] == '"'
    ensures Scan(data, depth, true, false) == Shift(k + 1, Scan(data[k + 1..], depth, false, false))
    ensures Scan(data[k + 1..], depth, false, false) > 0
    decreases |data|
  {
    if data[0] == '"' {
      body, k := [], 0;
    } else {
      var m := StringStep(data, depth);
      var item := if m == 2 then Esc(data[1]) else Chr(data[0]);
      var b, j := ParseString(data[m..], depth);
      body, k := [item] + b, m + j;
      StringCons(data, item, b, j);
      Prefixed(data, m, j);
    }
  }

  lemma BodyCons(data: string, head: Item, tail: Items, j: nat, i: nat)
    requires j + i < |data| && data[..j] == ItemText(head) && data[j..][..i] == Text(tail)
    ensures data[..j + i] == Text(Cons(head, tail))
    ensures data[j..][i] == data[j + i] && data[j..][i + 1..] == data[j + i + 1..]
  {
    Prefixed(data, j, i);
  }

  lemma NoText()
    ensures Text(Nil) == ""
  {}

  lemma BodyEnds(data: string, depth: int)
    requires depth >= 1 && Scan(data, depth, false, false) > 0 && data[0] == '}'
    ensures depth == 1 ==> Scan(data, depth, false, false) == 1
    ensures depth > 1 ==> Scan(data[1..], depth - 1, false, false) > 0
    ensures depth > 1 ==> Scan(data, depth, false, false) == 1 + Scan(data[1..], depth - 1, false, false)
  {}

  /** Inside an object: everything up to the brace that closes it is a body. */
  lemma {:induction false} ParseBody(data: string, depth: int) returns (items: Items, k: nat)
    requires depth >= 1 && Scan(data, depth, false, false) > 0
    ensures k < |data| && Wf(items) && data[..k] == Text(items) && data[k] == '}'
    ensures depth == 1 ==> Scan(data, depth, false, false) == k + 1
    ensures depth > 1 ==> Scan(data[k + 1..], depth - 1, false, false) > 0
    ensures depth > 1 ==> Scan(data, depth, false, false) == k + 1 + Scan(data[k + 1..], depth - 1, false, false)
    decreases |data|
  {
    hide Scan, Text, ItemText, WfItem;
    if data[0] == '}' {
      items, k := Nil, 0;
      NoText();
      BodyEnds(data, depth);
    } else {
      var head, j := ParseItem(data, depth);
      var rest := data[j..];
      var tail, i := ParseBody(rest, depth);
      items, k := Cons(head, tail), j + i;
      BodyCons(data, head, tail, j, i);
      assert data[k + 1..] == rest[i + 1..];
    }
  }

  /** The first step of the scanner outside a string. */
  lemma ItemStep(data: string, depth: int)
    requires Scan(data, depth, false, false) > 0 && data[0] != '}'
    ensures Scan(data, depth, false, false) == 1 +
      Scan(data[1..], if data[0] == '{' then depth + 1 else depth, data[0] == '"', false)
    ensures Scan(data[1..], if data[0] == '{' then depth + 1 else depth, data[0] == '"', false) > 0
  {}

  lemma {:induction false} ParseItem(data: string, depth: int) returns (item: Item, k: nat)
    requires depth >= 0 && Scan(data, depth, false, false) > 0 && data[0] != '}'
    requires depth > 0 || data[0] != '{'
    ensures 0 < k <= |data| && WfItem(item) && data[..k] == ItemText(item)
    ensures depth == 0 ==> !item.Nested?
    ensures Scan(data, depth, false, false) == k + Scan(data[k..], depth, false, false)
    ensures Scan(data[k..], depth, false, false) > 0
    decreases |data|, 0
  {
    hide Scan, Text, StrText, Wf, WfStr;
    ItemStep(data, depth);
    var rest := data[1..];
    if data[0] == '"' {
      var body, j := ParseString(rest, depth);
      item, k := Quoted(body), j + 2;
      Enclosed(data, j, StrText(body));
    } else if data[0] == '{' {
      var inner, j := ParseBody(rest, depth + 1);
      item, k := Nested(inner), j + 2;
      Enclosed(data, j, Text(inner));
    } else {
      item, k := Plain(data[0]), 1;
    }
  }

  lemma {:induction false} ParsePrefix(data: string, n: nat) returns (pre: Items, body: Items)
    requires Scan(data, 0, false, false) == n
    ensures Wf(pre) && Flat(pre) && Wf(body)
    ensures data[..n] == Text(pre) + "{" + Text(body) + "}"
    decreases |data|
  {
    if data[0] == '{' {
      var k: nat;
      pre := Nil;
      body, k := ParseBody(data[1..], 1);
      Enclosed(data, k, Text(body));
      assert Text(pre) + "{" == "{";
    } else {
      var head, j := ParseItem(data, 0);
      var tail;
      tail, body := ParsePrefix(data[j..], n - j);
      pre := Cons(head, tail);
      CutPrefix(data, j, n, ItemText(head), Text(tail), Text(body));
    }
  }

  lemma CutPrefix(data: string, j: nat, n: nat, a: string, b: string, c: string)
    requires j <= n <= |data| && data[..j] == a && data[j..][..n - j] == b + "{" + c + "}"
    ensures data[..n] == (a + b) + "{" + c + "}"
  {
    assert data[..n] == data[..j] + data[j..][..n - j];
  }

  lemma ScannedIsBalanced(data: string, n: nat)
    requires Scan(data, 0, false, false) == n
    ensures n <= |data| && IsBalanced(data[..n])
  {
    var pre, body := ParsePrefix(data, n);
  }

  lemma BalancedIsScanned(t: string, rest: string)
    requires IsBalanced(t)
    ensures Scan(t + rest, 0, false, false) == |t|
  {
    var pre, body :| Wf(pre) && Flat(pre) && Wf(body) && t == Text(pre) + "{" + Text(body) + "}";
    ScanComplete(pre, body, rest);
  }

  /**
   The scanner is exact: it stops behind `n` characters if and only if those are
   a balanced text.  Hence the balanced prefix of any data is unique, and the
   scanner fails exactly when there is none.
   */
  lemma ScanExact(data: string, n: nat)
    requires n <= |data|
    ensures Scan(data, 0, false, false) == n <==> IsBalanced(data[..n])
  {
    if Scan(data, 0, false, false) == n {
      ScannedIsBalanced(data, n);
    }
    if IsBalanced(data[..n]) {
      assert data == data[..n] + data[n..];
      BalancedIsScanned(data[..n], data[n..]);
    }
  }

  lemma FlatStart(pre: Items)
    requires Wf(pre) && Flat(pre) && pre.Cons?
    ensures Text(pre) != "" && Text(pre)[0] != '{'
  {
    assert ItemText(pre.head) != "" && ItemText(pre.head)[0] != '{';
  }

  lemma NothingBeforeBrace(pre: Items)
    requires Wf(pre) && Flat(pre) && (Text(pre) + "{")[0] == '{'
    ensures Text(pre) + "{" == "{"
  {
    if pre.Cons? { FlatStart(pre); }
  }

  /** From an opening brace on, balanced texts are object texts. */
  lemma BalancedFromBrace(t: string)
    requires t != "" && t[0] == '{'
    ensures IsBalanced(t) <==> IsObject(t)
  {
    assert Wf(Nil) && Flat(Nil) && Text(Nil) == "";
    hide Wf, Flat, Text;
    if IsBalanced(t) {
      var pre, body :| Wf(pre) && Flat(pre) && Wf(body) && t == Text(pre) + "{" + Text(body) + "}";
      assert t[0] == (Text(pre) + "{")[0];
      NothingBeforeBrace(pre);
    }
    if IsObject(t) {
      var body :| Wf(body) && t == "{" + Text(body) + "}";
      assert Text(Nil) + "{" == "{";
      assert t == Text(Nil) + "{" + Text(body) + "}";
    }
  }

  /** The scanner finds the one balanced prefix, if there is one. */
  lemma ScanDecides(data: string)
    ensures var r := Scan(data, 0, false, false);
      if r >= 0 then IsBalanced(data[..r]) && forall n :: 0 <= n <= |data| && IsBalanced(data[..n]) ==> n == r
      else forall n :: 0 <= n <= |data| ==> !IsBalanced(data[..n])
  {
    forall n | 0 <= n <= |data|
      ensures Scan(data, 0, false, false) == n <==> IsBalanced(data[..n])
    {
      ScanExact(data, n);
    }
  }

  /** The loop of the scanner, with its three state variables. */
  method MatchingObjectEnd(data: string) returns (end: nat, ok: bool)
    ensures ok ==> end <= |data| && IsBalanced(data[..end])
    ensures ok ==> forall n :: 0 <= n <= |data| && IsBalanced(data[..n]) ==> n == end
    ensures !ok ==> end == 0 && forall n :: 0 <= n <= |data| ==> !IsBalanced(data[..n])
    ensures Scan(data, 0, false, false) == if ok then end else -1
  {
    ScanDecides(data);
    var depth, inString, escaped := 0, false, false;
    for index := 0 to |data|
      invariant depth >= 0 && (escaped ==> inString)
      invariant Scan(data, 0, false, false) == Shift(index, Scan(data[index..], depth, inString, escaped))
    {
      var character := data[index];
      assert data[index..][1..] == data[index + 1..];
      if inString {
        if escaped {
          escaped := false;
        } else if character == '\\' {
          escaped := true;
        } else if character == '"' {
          inString := false;
        }
      } else if character == '"' {
        inString := true;
      } else if character == '{' {
        depth := depth + 1;
      } else if character == '}' {
        depth := depth - 1;
        if depth == 0 {
          return index + 1, true;
        }
        if depth < 0 {
          return 0, false;
        }
      }
    }
    return 0, false;
  }
}
