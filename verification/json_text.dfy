/**
 JSON texts (RFC 8259): objects, arrays, strings with every escape, white space
 in every place the grammar allows it.  Each JSON object is an object text, so
 the brace scanner of the console decoder finds its end.
 */
module JsonText {
  import opened Sequences
  import opened ObjectText

  /** Section 7: an unescaped character, a two-character escape, or \uXXXX. */
  datatype JChar = Raw(c: char) | Short(c: char) | Hex(a: char, b: char, c: char, d: char)

  datatype Json =
    | Atom(text: string)
    | Str(chars: seq<JChar>)
    | Arr(elems: Elems, gap: string)
    | Obj(members: Members, gap: string)

  datatype Elems = ENil | ECons(before: string, value: Json, after: string, rest: Elems)

  datatype Members =
    | MNil
    | MCons(before: string, key: seq<JChar>, preColon: string, postColon: string, value: Json, after: string,
            rest: Members)

  predicate IsWs(s: string) {
    forall i :: 0 <= i < |s| ==> s[i] == ' ' || s[i] == '\t' || s[i] == '\n' || s[i] == '\r'
  }

  /** The characters of numbers and of the literals true, false and null. */
  predicate IsAtomChar(c: char) {
    '0' <= c <= '9' || 'a' <= c <= 'z' || 'A' <= c <= 'Z' || c == '+' || c == '-' || c == '.'
  }

  predicate IsHex(c: char) {
    '0' <= c <= '9' || 'a' <= c <= 'f' || 'A' <= c <= 'F'
  }

  predicate WfJChar(j: JChar) {
    match j
    case Raw(c) => c >= ' ' && c != '"' && c != '\\'
    case Short(c) => c in "\"\\/bfnrt"
    case Hex(a, b, c, d) => IsHex(a) && IsHex(b) && IsHex(c) && IsHex(d)
  }

  predicate WfChars(chars: seq<JChar>) {
    forall i :: 0 <= i < |chars| ==> WfJChar(chars[i])
  }

  predicate WfJson(v: Json) {
    match v
    case Atom(text) => forall i :: 0 <= i < |text| ==> IsAtomChar(text[i])
    case Str(chars) => WfChars(chars)
    case Arr(elems, gap) => WfElems(elems) && IsWs(gap)
    case Obj(members, gap) => WfMembers(members) && IsWs(gap)
  }

  predicate WfElems(e: Elems) {
    e.ECons? ==> IsWs(e.before) && WfJson(e.value) && IsWs(e.after) && WfElems(e.rest)
  }

  predicate WfMembers(m: Members) {
    m.MCons? ==>
      && IsWs(m.before) && WfChars(m.key) && IsWs(m.preColon) && IsWs(m.postColon)
      && WfJson(m.value) && IsWs(m.after) && WfMembers(m.rest)
  }

  function CharText(j: JChar): string {
    match j
    case Raw(c) => [c]
    case Short(c) => ['\\', c]
    case Hex(a, b, c, d) => ['\\', 'u', a, b, c, d]
  }

  function CharsText(chars: seq<JChar>): string {
    if chars == [] then "" else CharText(chars[0]) + CharsText(chars[1..])
  }

  function JsonString(v: Json): string {
    match v
    case Atom(text) => text
    case Str(chars) => "\"" + CharsText(chars) + "\""
    case Arr(elems, gap) => "[" + (if elems.ENil? then gap else ElemsText(elems)) + "]"
    case Obj(members, gap) => "{" + (if members.MNil? then gap else MembersText(members)) + "}"
  }

  function ElemsText(e: Elems): string {
    match e
    case ENil => ""
    case ECons(before, value, after, rest) =>
      before + (JsonString(value) + (after + ((if rest.ENil? then "" else ",") + ElemsText(rest))))
  }

  function MembersText(m: Members): string {
    match m
    case MNil => ""
    case MCons(before, key, preColon, postColon, value, after, rest) =>
      before + (("\"" + CharsText(key) + "\"") + (preColon + (":" + (postColon +
        (JsonString(value) + (after + ((if rest.MNil? then "" else ",") + MembersText(rest))))))))
  }

  // ----- bodies are closed under everything JSON puts together

  function Append(a: Items, b: Items): Items {
    match a
    case Nil => b
    case Cons(head, tail) => Cons(head, Append(tail, b))
  }

  lemma {:induction false} AppendText(a: Items, b: Items)
    requires Wf(a) && Wf(b)
    ensures Wf(Append(a, b)) && Text(Append(a, b)) == Text(a) + Text(b)
  {
    hide ItemText, WfItem;
    match a
    case Nil => assert "" + Text(b) == Text(b);
    case Cons(head, tail) =>
      AppendText(tail, b);
      Assoc(ItemText(head), Text(tail), Text(b));
  }

  lemma BodyConcat(s: string, t: string)
    requires IsBody(s) && IsBody(t)
    ensures IsBody(s + t)
  {
    var a :| Wf(a) && Text(a) == s;
    var b :| Wf(b) && Text(b) == t;
    AppendText(a, b);
  }

  lemma ItemBody(item: Item)
    requires WfItem(item)
    ensures IsBody(ItemText(item))
  {
    var items := Cons(item, Nil);
    assert Wf(items.tail) && Text(items.tail) == "";
    assert Text(items) == ItemText(item);
  }

  lemma {:induction false} PlainBody(s: string)
    requires forall i :: 0 <= i < |s| ==> s[i] != '"' && s[i] != '{' && s[i] != '}'
    ensures IsBody(s)
  {
    if s == "" {
      assert Text(Nil) == s;
    } else {
      PlainBody(s[1..]);
      ItemBody(Plain(s[0]));
      BodyConcat([s[0]], s[1..]);
      assert s == [s[0]] + s[1..];
    }
  }

  function CharItems(j: JChar): seq<StrItem> {
    match j
    case Raw(c) => [Chr(c)]
    case Short(c) => [Esc(c)]
    case Hex(a, b, c, d) => [Esc('u'), Chr(a), Chr(b), Chr(c), Chr(d)]
  }

  function StrItems(chars: seq<JChar>): seq<StrItem> {
    if chars == [] then [] else CharItems(chars[0]) + StrItems(chars[1..])
  }

  lemma {:induction false} StrConcat(a: seq<StrItem>, b: seq<StrItem>)
    ensures StrText(a + b) == StrText(a) + StrText(b)
  {
    if a == [] {
      assert a + b == b;
    } else {
      assert (a + b)[1..] == a[1..] + b;
      StrConcat(a[1..], b);
    }
  }

  lemma PairText(a: char, b: char)
    ensures StrText([Chr(a), Chr(b)]) == [a, b]
  {
    assert [Chr(a), Chr(b)] == [Chr(a)] + [Chr(b)];
    StrCons(Chr(a), [Chr(b)]);
    StrCons(Chr(b), []);
    assert [Chr(b)] + [] == [Chr(b)];
  }

  lemma HexText(a: char, b: char, c: char, d: char)
    ensures StrText([Esc('u'), Chr(a), Chr(b), Chr(c), Chr(d)]) == ['\\', 'u', a, b, c, d]
  {
    var x, y := [Chr(a), Chr(b)], [Chr(c), Chr(d)];
    PairText(a, b);
    PairText(c, d);
    StrConcat(x, y);
    StrCons(Esc('u'), x + y);
    hide StrText;
    assert [Esc('u'), Chr(a), Chr(b), Chr(c), Chr(d)] == [Esc('u')] + (x + y);
  }

  lemma CharItemsText(j: JChar)
    requires WfJChar(j)
    ensures WfStr(CharItems(j)) && StrText(CharItems(j)) == CharText(j)
  {
    assert StrText([]) == "";
    hide StrText;
    match j
    case Raw(c) => StrCons(Chr(c), []);
    case Short(c) => StrCons(Esc(c), []);
    case Hex(a, b, c, d) => HexText(a, b, c, d);
  }

  lemma {:induction false} StrItemsText(chars: seq<JChar>)
    requires WfChars(chars)
    ensures WfStr(StrItems(chars)) && StrText(StrItems(chars)) == CharsText(chars)
  {
    if chars != [] {
      CharItemsText(chars[0]);
      StrItemsText(chars[1..]);
      StrConcat(CharItems(chars[0]), StrItems(chars[1..]));
    }
  }

  lemma StringBody(chars: seq<JChar>)
    requires WfChars(chars)
    ensures IsBody("\"" + CharsText(chars) + "\"")
  {
    StrItemsText(chars);
    ItemBody(Quoted(StrItems(chars)));
  }

  lemma ObjectBody(t: string)
    requires IsBody(t)
    ensures IsObject("{" + t + "}") && IsBody("{" + t + "}")
  {
    var items :| Wf(items) && Text(items) == t;
    ItemBody(Nested(items));
  }

  lemma {:induction false} JsonBody(v: Json)
    requires WfJson(v)
    ensures IsBody(JsonString(v))
    ensures v.Obj? ==> IsObject(JsonString(v))
    decreases v
  {
    match v
    case Atom(text) => PlainBody(text);
    case Str(chars) => StringBody(chars);
    case Arr(elems, gap) =>
      PlainBody(gap);
      ElemsBody(elems);
      var inner := if elems.ENil? then gap else ElemsText(elems);
      PlainBody("[");
      PlainBody("]");
      BodyConcat("[", inner);
      BodyConcat("[" + inner, "]");
    case Obj(members, gap) =>
      PlainBody(gap);
      MembersBody(members);
      ObjectBody(if members.MNil? then gap else MembersText(members));
  }

  lemma {:induction false} ElemsBody(e: Elems)
    requires WfElems(e)
    ensures IsBody(ElemsText(e))
    decreases e
  {
    match e
    case ENil => PlainBody("");
    case ECons(before, value, after, rest) =>
      PlainBody(before);
      JsonBody(value);
      PlainBody(after);
      ElemsBody(rest);
      var comma := if rest.ENil? then "" else ",";
      PlainBody(comma);
      BodyConcat(comma, ElemsText(rest));
      BodyConcat(after, comma + ElemsText(rest));
      BodyConcat(JsonString(value), after + (comma + ElemsText(rest)));
      BodyConcat(before, JsonString(value) + (after + (comma + ElemsText(rest))));
  }

  lemma {:induction false} MembersBody(m: Members)
    requires WfMembers(m)
    ensures IsBody(MembersText(m))
    decreases m
  {
    match m
    case MNil => PlainBody("");
    case MCons(before, key, preColon, postColon, value, after, rest) =>
      JsonBody(value);
      MembersBody(rest);
      var comma := if rest.MNil? then "" else ",";
      PlainBody(comma);
      var tail := comma + MembersText(rest);
      BodyConcat(comma, MembersText(rest));
      MemberBody(before, key, preColon, postColon, JsonString(value), after, tail);
  }

  lemma MemberBody(before: string, key: seq<JChar>, preColon: string, postColon: string, value: string,
                   after: string, tail: string)
    requires IsWs(before) && WfChars(key) && IsWs(preColon) && IsWs(postColon) && IsWs(after)
    requires IsBody(value) && IsBody(tail)
    ensures IsBody(before + (("\"" + CharsText(key) + "\"") +
                   (preColon + (":" + (postColon + (value + (after + tail)))))))
  {
    PlainBody(before);
    StringBody(key);
    PlainBody(preColon);
    PlainBody(":");
    PlainBody(postColon);
    PlainBody(after);
    BodyConcat(after, tail);
    BodyConcat(value, after + tail);
    BodyConcat(postColon, value + (after + tail));
    BodyConcat(":", postColon + (value + (after + tail)));
    BodyConcat(preColon, ":" + (postColon + (value + (after + tail))));
    BodyConcat("\"" + CharsText(key) + "\"", preColon + (":" + (postColon + (value + (after + tail)))));
    BodyConcat(before, ("\"" + CharsText(key) + "\"") + (preColon + (":" + (postColon + (value + (after + tail))))));
  }
}
