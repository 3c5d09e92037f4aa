/**
 The algebra of conversation identifiers.  Messages of one operator are filed
 under the base callsign, read states under the full one, and both are derived
 from the same source and destination; the three derivations must agree.
 */
module ConversationKeys {
  import opened Text

  const SUFFIX := ".jsonl"

  predicate IsNumeric(s: string) {
    s != "" && AllDigits(s)
  }

  predicate IsDM(dst: string) {
    dst != "" && dst != "*" && !IsNumeric(dst)
  }

  predicate IsSafeChar(c: char) {
    'A' <= c <= 'Z' || IsDigit(c) || c == '_' || c == '-'
  }

  function SanitizeChar(c: char): char {
    if IsSafeChar(UpperChar(c)) then UpperChar(c) else '_'
  }

  /** Upper case, every other character an underscore. */
  function Sanitize(s: string): (r: string)
    ensures |r| == |s|
    ensures forall i :: 0 <= i < |s| ==> r[i] == SanitizeChar(s[i])
  {
    seq(|s|, i requires 0 <= i < |s| => SanitizeChar(s[i]))
  }

  /** The callsign without a numeric suffix behind its last dash. */
  function BaseCall(callsign: string): string {
    var i := LastIndexOf(callsign, '-');
    if i >= 0 && IsNumeric(callsign[i + 1..]) then callsign[..i] else callsign
  }

  function Filename(dst: string): string {
    if dst == "" || dst == "*" then "P_broadcast" + SUFFIX
    else if IsNumeric(dst) then "P_" + dst + SUFFIX
    else "DM_" + Sanitize(dst) + SUFFIX
  }

  function Origin(src: string): string {
    Upper(Before(src, ','))
  }

  /** The other side of a message, or nothing when it does not involve the operator. */
  function Interlocutor(src: string, dst: string, myCall: string): Option<string> {
    var myBase := BaseCall(myCall);
    if BaseCall(Origin(src)) != myBase && BaseCall(Upper(dst)) != myBase then None
    else Some(if BaseCall(Upper(dst)) == myBase then Origin(src) else Upper(dst))
  }

  function DMKey(own: string, peer: string): string {
    "DM_" + (own + ("_" + peer))
  }

  function FilenameForMsg(src: string, dst: string, myCall: string): string {
    if !IsDM(dst) || myCall == "" then Filename(dst)
    else
      match Interlocutor(src, dst, myCall)
      case None => ""
      case Some(peer) => DMKey(Sanitize(BaseCall(myCall)), Sanitize(peer)) + SUFFIX
  }

  function ConversationID(src: string, dst: string, myCall: string): string {
    TrimSuffix(FilenameForMsg(src, dst, myCall), SUFFIX)
  }

  function StatusKey(src: string, dst: string, myCall: string): string {
    if !IsDM(dst) then TrimSuffix(Filename(dst), SUFFIX)
    else if myCall == "" then ""
    else
      match Interlocutor(src, dst, Upper(myCall))
      case None => ""
      case Some(peer) => DMKey(Sanitize(Upper(myCall)), Sanitize(peer))
  }

  /** The parts of an identifier of the form DM_a_b, cut at the first underscore. */
  function DMParts(id: string): Option<(string, string)> {
    if !HasPrefix(id, "DM_") then None
    else
      var rest := id[3..];
      var i := IndexOf(rest, '_');
      if i < 0 then None else Some((rest[..i], rest[i + 1..]))
  }

  function FileIDForAPIID(id: string): string {
    match DMParts(id)
    case None => id
    case Some((caller, peer)) => DMKey(Sanitize(BaseCall(caller)), peer)
  }

  /** The weaker clean-up of the read-state store. */
  function StatusSanitize(s: string): (r: string)
    ensures |r| == |s|
  {
    seq(|s|, i requires 0 <= i < |s| =>
      var c := UpperChar(s[i]);
      if c == '/' || c == '\\' || c == ' ' then '_' else c)
  }

  function DMStatusKey(conversationID: string, src: string, dst: string): string {
    if !HasPrefix(conversationID, "DM_") then ""
    else
      match DMParts(conversationID)
      case None => conversationID
      case Some((localBase, peer)) =>
        if BaseCall(Origin(src)) == localBase then DMKey(StatusSanitize(Origin(src)), StatusSanitize(peer))
        else if BaseCall(Upper(dst)) == localBase then DMKey(StatusSanitize(Upper(dst)), StatusSanitize(peer))
        else conversationID
  }

  /** A row of the direct table is filed under a direct conversation, or under none. */
  lemma DMStatusKeyIsDirect(conversationID: string, src: string, dst: string)
    ensures var key := DMStatusKey(conversationID, src, dst); key == "" || HasPrefix(key, "DM_")
  {}

  // ----- callsigns

  predicate IsCallsignChar(c: char) {
    'A' <= c <= 'Z' || IsDigit(c) || c == '-'
  }

  /** Three to ten letters or digits, then optionally a dash and one or two digits. */
  predicate IsCallsign(s: string) {
    var i := IndexOf(s, '-');
    var base := if i < 0 then s else s[..i];
    && 3 <= |base| <= 10 && (forall k :: 0 <= k < |base| ==> 'A' <= base[k] <= 'Z' || IsDigit(base[k]))
    && (i >= 0 ==> 1 <= |s| - i - 1 <= 2 && AllDigits(s[i + 1..]))
  }

  /** Made of the characters of callsigns only. */
  predicate IsClean(s: string) {
    forall k :: 0 <= k < |s| ==> IsCallsignChar(s[k])
  }

  lemma CallsignIsClean(s: string)
    requires IsCallsign(s)
    ensures IsClean(s) && s != ""
  {
    var i := IndexOf(s, '-');
    if i >= 0 {
      assert forall k :: i < k < |s| ==> s[k] == s[i + 1..][k - i - 1];
    }
  }

  /** Clean text passes through every clean-up unchanged and has no underscore. */
  lemma CleanIsFixed(s: string)
    requires IsClean(s)
    ensures Upper(s) == s && Sanitize(s) == s && StatusSanitize(s) == s && '_' !in s
    ensures IsClean(BaseCall(s))
  {}

  lemma CutSuffix(s: string)
    ensures TrimSuffix(s + SUFFIX, SUFFIX) == s
  {}

  lemma DMKeyParts(own: string, peer: string)
    requires '_' !in own
    ensures DMParts(DMKey(own, peer)) == Some((own, peer))
    ensures HasPrefix(DMKey(own, peer), "DM_")
  {
    var id := DMKey(own, peer);
    assert id[..3] == "DM_";
    var rest := id[3..];
    assert rest == own + ("_" + peer) == own + "_" + peer;
    IndexOfFirst(own, '_', peer);
    assert rest[..|own|] == own && rest[|own| + 1..] == peer;
  }

  lemma NoDMPrefix(s: string)
    ensures DMParts("P_" + s) == None && DMParts("") == None
  {
    assert ("P_" + s)[0] == 'P';
    assert "DM_"[0] == 'D';
  }

  /**
   The identifier under which a read state is kept leads back to the file of the
   conversation, for every message and every clean own callsign.
   */
  lemma StatusKeyLeadsToFile(src: string, dst: string, myCall: string)
    requires IsClean(myCall) && myCall != ""
    ensures FileIDForAPIID(StatusKey(src, dst, myCall)) == ConversationID(src, dst, myCall)
  {
    CleanIsFixed(myCall);
    NoDMPrefix("");
    if !IsDM(dst) {
      NonDMKey(dst);
    } else {
      match Interlocutor(src, dst, myCall)
      case None =>
      case Some(peer) =>
        DMKeyParts(myCall, Sanitize(peer));
        CutSuffix(DMKey(Sanitize(BaseCall(myCall)), Sanitize(peer)));
    }
  }

  lemma NonDMKey(dst: string)
    requires !IsDM(dst)
    ensures FileIDForAPIID(TrimSuffix(Filename(dst), SUFFIX)) == TrimSuffix(Filename(dst), SUFFIX)
  {
    if dst == "" || dst == "*" {
      CutSuffix("P_broadcast");
      NoDMPrefix("broadcast");
      assert "P_" + "broadcast" == "P_broadcast";
    } else {
      CutSuffix("P_" + dst);
      NoDMPrefix(dst);
    }
  }

  /** In particular for every valid callsign. */
  lemma StatusKeyLeadsToFileForCallsign(src: string, dst: string, myCall: string)
    requires IsCallsign(myCall)
    ensures FileIDForAPIID(StatusKey(src, dst, myCall)) == ConversationID(src, dst, myCall)
  {
    CallsignIsClean(myCall);
    StatusKeyLeadsToFile(src, dst, myCall);
  }

  /** Cutting a numeric suffix off upper-case text leaves upper-case text. */
  lemma BaseIsUpper(s: string)
    requires Upper(s) == s
    ensures Upper(BaseCall(s)) == BaseCall(s)
  {
    assert forall i :: 0 <= i < |s| ==> UpperChar(s[i]) == s[i];
  }

  /** A callsign that only lacks its upper case lacks it before the suffix already. */
  lemma LowerBase(myCall: string)
    requires IsClean(Upper(myCall)) && !IsClean(myCall)
    ensures Upper(BaseCall(myCall)) != BaseCall(myCall)
  {
    hide BaseCall, Upper;
    var i :| 0 <= i < |myCall| && !IsCallsignChar(myCall[i]);
    assert IsCallsignChar(Upper(myCall)[i]);
    BaseKeepsLetter(myCall, i);
    assert Upper(BaseCall(myCall))[i] == UpperChar(myCall[i]);
  }

  /** What is neither a digit nor a dash is not cut off with a suffix. */
  lemma BaseKeepsLetter(s: string, i: nat)
    requires i < |s| && !IsDigit(s[i]) && s[i] != '-'
    ensures i < |BaseCall(s)| && BaseCall(s)[i] == s[i]
  {
    hide LastIndexOf;
    var k := LastIndexOf(s, '-');
    assert k >= 0 && i > k ==> s[i] == s[k + 1..][i - k - 1];
  }

  lemma UpperTwice(s: string)
    ensures Upper(Upper(s)) == Upper(s)
  {}

  /** Such a callsign finds itself on no side of a message. */
  lemma LowerIsNoSide(src: string, dst: string, myCall: string)
    requires IsClean(Upper(myCall)) && !IsClean(myCall)
    ensures Interlocutor(src, dst, myCall) == None
  {
    LowerBase(myCall);
    UpperTwice(Before(src, ','));
    UpperTwice(dst);
    BaseIsUpper(Origin(src));
    BaseIsUpper(Upper(dst));
  }

  lemma KeyOfOwnMessage(src: string, dst: string, myCall: string, peer: string)
    requires IsDM(dst) && myCall != "" && IsClean(Upper(myCall)) && Interlocutor(src, dst, Upper(myCall)) == Some(peer)
    ensures FileIDForAPIID(StatusKey(src, dst, myCall)) == DMKey(Sanitize(BaseCall(Upper(myCall))), Sanitize(peer))
  {
    CleanIsFixed(Upper(myCall));
    DMKeyParts(Upper(myCall), Sanitize(peer));
  }

  /**
   For a callsign that need not be in upper case, the identifier leads back to the
   file exactly when it is in upper case, or the message is not direct, or not ours.
   */
  lemma StatusKeyLeadsToFileIff(src: string, dst: string, myCall: string)
    requires IsClean(Upper(myCall)) && myCall != ""
    ensures FileIDForAPIID(StatusKey(src, dst, myCall)) == ConversationID(src, dst, myCall) <==>
            IsClean(myCall) || !IsDM(dst) || Interlocutor(src, dst, Upper(myCall)) == None
  {
    if IsClean(myCall) {
      StatusKeyLeadsToFile(src, dst, myCall);
    } else if !IsDM(dst) {
      NonDMKey(dst);
    } else {
      LowerIsNoSide(src, dst, myCall);
      NoDMPrefix("");
      match Interlocutor(src, dst, Upper(myCall))
      case None =>
      case Some(peer) => KeyOfOwnMessage(src, dst, myCall, peer);
    }
  }

  // ----- every identifier handed out is accepted

  predicate AllSafe(s: string) {
    forall i :: 0 <= i < |s| ==> IsSafeChar(s[i])
  }

  predicate IsValidID(id: string) {
    || id == "P_broadcast"
    || (HasPrefix(id, "P_") && IsNumeric(id[2..]))
    || (HasPrefix(id, "DM_") && id != "DM_" && AllSafe(id[3..]))
  }

  lemma DMKeyIsValid(own: string, peer: string)
    ensures IsValidID(DMKey(Sanitize(own), Sanitize(peer)))
  {
    var o, p := Sanitize(own), Sanitize(peer);
    var id := DMKey(o, p);
    assert id[..3] == "DM_" && id[3..] == o + ("_" + p);
    assert AllSafe(o) && AllSafe(p) && AllSafe("_");
    assert AllSafe(o + ("_" + p));
  }

  /** Whatever the message and the own callsign are. */
  lemma ConversationIDIsValid(src: string, dst: string, myCall: string)
    requires ConversationID(src, dst, myCall) != ""
    ensures IsValidID(ConversationID(src, dst, myCall))
  {
    if !IsDM(dst) || myCall == "" {
      FilenameIsValid(dst);
    } else {
      match Interlocutor(src, dst, myCall)
      case None =>
      case Some(peer) =>
        CutSuffix(DMKey(Sanitize(BaseCall(myCall)), Sanitize(peer)));
        DMKeyIsValid(BaseCall(myCall), peer);
    }
  }

  lemma FilenameIsValid(dst: string)
    ensures IsValidID(TrimSuffix(Filename(dst), SUFFIX))
  {
    if dst == "" || dst == "*" {
      CutSuffix("P_broadcast");
    } else if IsNumeric(dst) {
      CutSuffix("P_" + dst);
      assert ("P_" + dst)[2..] == dst;
    } else {
      CutSuffix("DM_" + Sanitize(dst));
      assert ("DM_" + Sanitize(dst))[3..] == Sanitize(dst);
    }
  }

  // ----- the read-state store rebuilds the same keys

  /** The operator's side of a message, and the other one. */
  function OwnSide(src: string, dst: string, base: string): (string, string) {
    if BaseCall(Origin(src)) == base then (Origin(src), Upper(dst)) else (Upper(dst), Origin(src))
  }

  /** Valid callsigns on both sides, exactly one of which is the operator's. */
  predicate Between(src: string, dst: string, base: string) {
    && IsCallsign(Origin(src)) && IsCallsign(Upper(dst)) && IsDM(dst)
    && (BaseCall(Origin(src)) == base) != (BaseCall(Upper(dst)) == base)
  }

  lemma SidesAreClean(src: string, dst: string, base: string)
    requires Between(src, dst, base)
    ensures var (own, peer) := OwnSide(src, dst, base);
      IsClean(own) && own != "" && IsClean(peer) && IsClean(base) && BaseCall(own) == base
  {
    CallsignIsClean(Origin(src));
    CallsignIsClean(Upper(dst));
    CleanIsFixed(OwnSide(src, dst, base).0);
  }

  lemma FileOfMessage(src: string, dst: string, myCall: string)
    requires myCall != "" && Between(src, dst, BaseCall(myCall))
    ensures ConversationID(src, dst, myCall) == DMKey(BaseCall(myCall), OwnSide(src, dst, BaseCall(myCall)).1)
  {
    var base := BaseCall(myCall);
    var peer := OwnSide(src, dst, base).1;
    SidesAreClean(src, dst, base);
    CleanIsFixed(base);
    CleanIsFixed(peer);
    assert Interlocutor(src, dst, myCall) == Some(peer);
    CutSuffix(DMKey(base, peer));
  }

  lemma KeyOfDevice(src: string, dst: string, base: string)
    requires Between(src, dst, base)
    ensures var (own, peer) := OwnSide(src, dst, base); StatusKey(src, dst, own) == DMKey(own, peer)
  {
    var (own, peer) := OwnSide(src, dst, base);
    SidesAreClean(src, dst, base);
    CleanIsFixed(own);
    CleanIsFixed(peer);
    hide BaseCall, Upper, Trim;
    assert Interlocutor(src, dst, own) == Some(peer);
  }

  /**
   For callsigns of which exactly one belongs to the operator, the key rebuilt
   from a stored row is the key of that message for that very device.
   */
  lemma RebuiltKeyAgrees(src: string, dst: string, myCall: string)
    requires myCall != "" && Between(src, dst, BaseCall(myCall))
    ensures DMStatusKey(ConversationID(src, dst, myCall), src, dst)
            == StatusKey(src, dst, OwnSide(src, dst, BaseCall(myCall)).0)
  {
    var base := BaseCall(myCall);
    var (own, peer) := OwnSide(src, dst, base);
    FileOfMessage(src, dst, myCall);
    KeyOfDevice(src, dst, base);
    SidesAreClean(src, dst, base);
    CleanIsFixed(base);
    CleanIsFixed(own);
    CleanIsFixed(peer);
    DMKeyParts(base, peer);
  }

  // ----- one conversation per partner

  lemma {:induction false} LastIndexOfLast(front: string, c: char, rest: string)
    requires c !in rest
    ensures LastIndexOf(front + [c] + rest, c) == |front|
  {
    var s := front + [c] + rest;
    if rest != "" {
      var shorter := rest[..|rest| - 1];
      assert s[..|s| - 1] == front + [c] + shorter;
      LastIndexOfLast(front, c, shorter);
    }
  }

  /** A device is named by a number behind a dash. */
  lemma BaseOfDevice(call: string, device: string)
    requires IsNumeric(device)
    ensures BaseCall(call + "-" + device) == call
  {
    var s := call + "-" + device;
    LastIndexOfLast(call, '-', device);
    assert s[|call| + 1..] == device && s[..|call|] == call;
  }

  /** All devices of an operator share one history. */
  lemma DevicesShareConversation(src: string, dst: string, call: string, device: string)
    requires call != "" && BaseCall(call) == call && IsNumeric(device)
    ensures ConversationID(src, dst, call + "-" + device) == ConversationID(src, dst, call)
  {
    hide BaseCall, Filename, Sanitize, IsNumeric, DMKey, TrimSuffix, IsDM, Origin, Upper;
    BaseOfDevice(call, device);
  }

  /** The read states of two devices of an operator are apart: equal keys mean equal devices. */
  lemma DevicesReadApart(src: string, dst: string, a: string, b: string)
    requires a != "" && b != "" && IsClean(a) && IsClean(b) && BaseCall(a) == BaseCall(b)
    requires IsDM(dst) && Interlocutor(src, dst, a).Some?
    ensures StatusKey(src, dst, a) == StatusKey(src, dst, b) <==> a == b
  {
    CleanIsFixed(a);
    CleanIsFixed(b);
    var peer := Sanitize(Interlocutor(src, dst, a).value);
    DMKeyParts(a, peer);
    DMKeyParts(b, peer);
  }

  lemma OriginOfCallsign(s: string)
    requires IsCallsign(Upper(s))
    ensures Origin(s) == Upper(s) && Upper(Upper(s)) == Upper(s)
  {
    CallsignIsClean(Upper(s));
    assert forall i :: 0 <= i < |s| && s[i] == ',' ==> Upper(s)[i] == ',';
    BeforeIsFree(s, ',');
  }

  /** A reply goes where the message went. */
  lemma ReplySharesConversation(src: string, dst: string, myCall: string)
    requires myCall != "" && Between(src, dst, BaseCall(myCall)) && IsDM(Origin(src))
    ensures ConversationID(dst, Origin(src), myCall) == ConversationID(src, dst, myCall)
  {
    OriginOfCallsign(dst);
    CallsignIsClean(Origin(src));
    CleanIsFixed(Origin(src));
    FileOfMessage(src, dst, myCall);
    FileOfMessage(dst, Origin(src), myCall);
  }

  lemma LetterCall(s: string)
    requires 3 <= |s| <= 10 && forall k :: 0 <= k < |s| ==> 'A' <= s[k] <= 'Z'
    ensures IsCallsign(s) && IsClean(s) && Upper(s) == s && Origin(s) == s && BaseCall(s) == s && IsDM(s)
  {
    assert '-' !in s && ',' !in s;
    BeforeIsFree(s, ',');
    assert s != "*" && !IsDigit(s[0]);
  }

  /** Two stations, one of them ours: both identifiers of their messages are the same text. */
  lemma TwoStations(a: string, b: string)
    requires 3 <= |a| <= 10 && forall k :: 0 <= k < |a| ==> 'A' <= a[k] <= 'Z'
    requires 3 <= |b| <= 10 && forall k :: 0 <= k < |b| ==> 'A' <= b[k] <= 'Z'
    requires a != b
    ensures ConversationID(a, b, a) == StatusKey(a, b, a) == DMKey(a, b)
    ensures ConversationID(b, a, a) == StatusKey(b, a, a) == DMKey(a, b)
  {
    LetterCall(a);
    LetterCall(b);
    CleanIsFixed(a);
    FileOfMessage(a, b, a);
    KeyOfDevice(a, b, a);
    FileOfMessage(b, a, a);
    KeyOfDevice(b, a, a);
  }

  lemma PartnerOf(a: string, b: string)
    requires 3 <= |a| <= 10 && forall k :: 0 <= k < |a| ==> 'A' <= a[k] <= 'Z'
    requires 3 <= |b| <= 10 && forall k :: 0 <= k < |b| ==> 'A' <= b[k] <= 'Z'
    requires a != b
    ensures IsDM(b) && IsClean(a) && Interlocutor(a, b, a) == Some(b) && BaseCall(a) == a
    ensures Sanitize(a) == a && Sanitize(b) == b
  {
    LetterCall(a);
    LetterCall(b);
    CleanIsFixed(a);
    CleanIsFixed(b);
  }

  lemma NotOurs(src: string, dst: string, myCall: string)
    requires IsDM(dst) && myCall != "" && Interlocutor(src, dst, myCall) == None
    ensures ConversationID(src, dst, myCall) == ""
  {}

  /** With the own callsign in lower case the file identifier is lost, the read-state key is not. */
  lemma LowerCaseLosesFile(a: string, b: string, myCall: string)
    requires 3 <= |a| <= 10 && forall k :: 0 <= k < |a| ==> 'A' <= a[k] <= 'Z'
    requires 3 <= |b| <= 10 && forall k :: 0 <= k < |b| ==> 'A' <= b[k] <= 'Z'
    requires a != b && Upper(myCall) == a && myCall != a
    ensures ConversationID(a, b, myCall) == "" && FileIDForAPIID(StatusKey(a, b, myCall)) == DMKey(a, b)
  {
    PartnerOf(a, b);
    assert !IsClean(myCall) by {
      if IsClean(myCall) { CleanIsFixed(myCall); }
    }
    LowerIsNoSide(a, b, myCall);
    NotOurs(a, b, myCall);
    KeyOfOwnMessage(a, b, myCall, b);
  }

  /** Neither a callsign nor a group name: a numbered channel, or everybody. */
  predicate IsChannel(dst: string) {
    dst == "" || dst == "*" || forall i :: 0 <= i < |dst| ==> '0' <= dst[i] <= '9'
  }

  lemma ChannelID(src: string, dst: string, myCall: string)
    requires IsChannel(dst)
    ensures ConversationID(src, dst, myCall) == "P_" + if dst == "" || dst == "*" then "broadcast" else dst
  {
    if dst == "" || dst == "*" {
      CutSuffix("P_broadcast");
    } else {
      CutSuffix("P_" + dst);
    }
  }

  /** Channels are kept apart from each other and from what everybody gets. */
  lemma ChannelsApart(src: string, a: string, src': string, b: string, myCall: string)
    requires IsChannel(a) && IsChannel(b)
    ensures ConversationID(src, a, myCall) == ConversationID(src', b, myCall) <==>
      a == b || (a in ["", "*"] && b in ["", "*"])
  {
    ChannelID(src, a, myCall);
    ChannelID(src', b, myCall);
    var x, y := ConversationID(src, a, myCall), ConversationID(src', b, myCall);
    assert x[2..] == if a == "" || a == "*" then "broadcast" else a;
    assert y[2..] == if b == "" || b == "*" then "broadcast" else b;
    assert "broadcast"[0] == 'b';
  }

  /** Without an own callsign a direct message is filed under its destination alone, and leads to that file. */
  lemma FiledWithoutCall(src: string, dst: string)
    requires IsDM(dst)
    ensures ConversationID(src, dst, "") == "DM_" + Sanitize(dst)
    ensures StatusKey(src, dst, "") == ""
  {
    CutSuffix("DM_" + Sanitize(dst));
  }

  /** A rebuilt key keeps its text in upper case, without separators of paths. */
  lemma StatusSanitizeMeans(s: string)
    ensures '/' !in StatusSanitize(s) && '\\' !in StatusSanitize(s) && ' ' !in StatusSanitize(s)
    ensures Upper(StatusSanitize(s)) == StatusSanitize(s)
    ensures '/' !in s && '\\' !in s && ' ' !in s ==> StatusSanitize(s) == Upper(s)
  {}
}
