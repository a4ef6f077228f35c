/** Attaching a signature to a JSON message and stripping it off again: src/security/message_signing.cpp.
    The key pair, the clock and the random nonce are parameters. */
module MessageSigning {
  import opened Basics
  import opened Text

  const NONCE_MARKER := ",\"nonce\":\""
  const TS_MARKER := ",\"ts\":"
  const SIG_MARKER := ",\"sig\":\""
  const REPLAY_WINDOW_MS := 30_000
  const PUB_KEY_SIZE := 33

  /** Threw stands for the exception of a hexadecimal conversion, which nothing catches. */
  datatype Verdict = Accepted | Rejected | Threw

  /** Signing with the node's private key, which can fail, and checking a (public key, text,
      signature) triple. */
  datatype Scheme = Scheme(sign: string -> Option<seq<byte>>, check: (seq<byte>, string, seq<byte>) -> bool)

  /** The scheme's signatures are not empty and its public key, given in hexadecimal, accepts them. */
  ghost predicate KeyPair(scheme: Scheme, pubHex: string) {
    FromHex(pubHex).Some? && |FromHex(pubHex).value| == PUB_KEY_SIZE &&
    forall text :: scheme.sign(text).Some? ==>
                     scheme.sign(text).value != [] && scheme.check(FromHex(pubHex).value, text, scheme.sign(text).value)
  }

  predicate EndsWithBrace(s: string) {
    |s| > 0 && s[|s| - 1] == '}'
  }

  // -------------------------------------------------------------- attaching

  function Stamp(nonce: seq<byte>, ts: uint64): string {
    NONCE_MARKER + ToHex(nonce) + "\"" + (TS_MARKER + NatToString(ts))
  }

  function SigField(signature: seq<byte>): string {
    SIG_MARKER + ToHex(signature) + "\""
  }

  /** The text that is signed. */
  function SignedText(payload: string, nonce: seq<byte>, ts: uint64): string {
    if EndsWithBrace(payload) then payload[..|payload| - 1] + Stamp(nonce, ts) + "}" else payload
  }

  function Attach(payload: string, nonce: seq<byte>, ts: uint64, scheme: Scheme): string {
    var text := SignedText(payload, nonce, ts);
    var signature := scheme.sign(text);
    if signature.None? then payload
    else if EndsWithBrace(text) then text[..|text| - 1] + SigField(signature.value) + "}"
    else text
  }

  // -------------------------------------------------------------- verifying

  /** std::string::erase */
  function Erase(s: string, start: nat, end: nat): (r: string)
    requires start <= end <= |s|
    ensures |r| == |s| - (end - start)
  {
    s[..start] + s[end..]
  }

  /** The last sig field: where it starts and where its closing quote is. */
  function FindSig(payload: string): (r: Option<(nat, nat)>)
    ensures r.Some? ==> r.value.0 + |SIG_MARKER| <= r.value.1 < |payload|
  {
    var pos := RFind(payload, SIG_MARKER);
    if pos.None? then None
    else
      var end := FindFirstOf(payload, {'"'}, pos.value + |SIG_MARKER|);
      if end.None? then None else Some((pos.value, end.value))
  }

  /** The number behind the last ts marker. */
  function ReadTimestamp(text: string): Option<uint64> {
    var pos := RFind(text, TS_MARKER);
    if pos.None? then None
    else
      var start := pos.value + |TS_MARKER|;
      var end := FindFirstOf(text, {',', '}'}, start);
      Stoull(text[start..if end.Some? then end.value else |text|])
  }

  /** The age is the 64-bit difference read as a signed number. */
  predicate InWindow(ts: uint64, now: uint64) {
    var difference: int := (now as int - ts as int) % UINT64_LIMIT;
    var age := if difference < UINT64_LIMIT / 2 then difference else difference - UINT64_LIMIT;
    0 <= age <= REPLAY_WINDOW_MS
  }

  /** None when the public key is not hexadecimal, which throws. */
  function Verify(text: string, signature: seq<byte>, pubHex: string, scheme: Scheme): Option<bool> {
    if text == "" || signature == [] || pubHex == "" then Some(false)
    else if FromHex(pubHex).None? then None
    else
      var pub := FromHex(pubHex).value;
      Some(|pub| == PUB_KEY_SIZE && scheme.check(pub, text, signature))
  }

  function DropTimestamp(s: string): (r: string)
    ensures |r| <= |s|
  {
    var pos := RFind(s, TS_MARKER);
    if pos.None? then s
    else
      var end := FindFirstOf(s, {',', '}'}, pos.value + |TS_MARKER|);
      Erase(s, pos.value, if end.Some? then end.value else |s|)
  }

  /** With no closing quote the count npos - pos + 1 wraps to 0 at position 0 and reaches beyond the
      text anywhere else. */
  function DropNonce(s: string): (r: string)
    ensures |r| <= |s|
  {
    var pos := RFind(s, NONCE_MARKER);
    if pos.None? then s
    else
      var end := FindFirstOf(s, {'"'}, pos.value + |NONCE_MARKER|);
      if end.Some? then Erase(s, pos.value, end.value + 1)
      else if pos.value == 0 then s
      else Erase(s, pos.value, |s|)
  }

  function VerifyAndStrip(payload: string, pubHex: string, now: uint64, scheme: Scheme): (r: (Verdict, string))
    ensures r.0 != Accepted ==> r.1 == payload
    ensures r.0 == Accepted ==> |r.1| < |payload|
  {
    var field := FindSig(payload);
    if field.None? then (Rejected, payload)
    else
      var (pos, end) := field.value;
      var signature := FromHex(payload[pos + |SIG_MARKER|..end]);
      if signature.None? then (Threw, payload)
      else if signature.value == [] then (Rejected, payload)
      else
        var text := payload[..pos] + "}";
        var ts := ReadTimestamp(text);
        if ts.None? || !InWindow(ts.value, now) then (Rejected, payload)
        else
          var ok := Verify(text, signature.value, pubHex, scheme);
          if ok.None? then (Threw, payload)
          else if !ok.value then (Rejected, payload)
          else (Accepted, DropNonce(DropTimestamp(Erase(payload, pos, end + 1))))
  }

  // -------------------------------------------------------------- the round trip

  /** Appending a field in front of the closing brace leaves it as the last occurrence of its marker,
      and its end is found. */
  lemma {:induction false} FieldIsLast(s: string, before: string, marker: string, text: string, tail: string,
                                       stops: set<char>)
    requires s == before + marker + text + tail
    requires |marker| > 0 && marker[0] == ',' && ',' !in marker[1..] && ',' !in text && ',' !in tail
    requires |tail| > 0 && tail[0] in stops && forall i :: 0 <= i < |text| ==> text[i] !in stops
    ensures RFind(s, marker) == Some(|before|)
    ensures FindFirstOf(s, stops, |before| + |marker|) == Some(|before| + |marker| + |text|)
  {
    hide *;
    assert before + marker + (text + tail) == s;
    MarkerIsLast(before, marker, text + tail);
    FindsEnd(before + marker, text, tail, stops);
  }

  lemma {:induction false} Pieces(s: string, before: string, marker: string, text: string, tail: string)
    requires s == before + marker + text + tail
    ensures s[|before| + |marker|..|before| + |marker| + |text|] == text
    ensures s[..|before|] == before && s[|before| + |marker| + |text|..] == tail
  {
  }

  lemma Markers()
    ensures |SIG_MARKER| > 0 && SIG_MARKER[0] == ',' && ',' !in SIG_MARKER[1..]
    ensures |TS_MARKER| > 0 && TS_MARKER[0] == ',' && ',' !in TS_MARKER[1..]
    ensures |NONCE_MARKER| > 0 && NONCE_MARKER[0] == ',' && ',' !in NONCE_MARKER[1..]
  {
  }

  /** A sig field in front of any text without a comma is the one that is found. */
  lemma {:induction false} SigFieldFound(before: string, signature: seq<byte>, tail: string)
    requires ',' !in tail
    ensures var s, end := before + SigField(signature) + tail, |before| + |SIG_MARKER| + 2 * |signature|;
            FindSig(s) == Some((|before|, end)) &&
            s[|before| + |SIG_MARKER|..end] == ToHex(signature) && s[..|before|] == before &&
            Erase(s, |before|, end + 1) == before + tail
  {
    hide RFind, FindFirstOf, ToHex, SIG_MARKER;
    var hex, s, rest := ToHex(signature), before + SigField(signature) + tail, "\"" + tail;
    Markers();
    assert s == before + SIG_MARKER + hex + rest;
    FieldIsLast(s, before, SIG_MARKER, hex, rest, {'"'});
    Pieces(s, before, SIG_MARKER, hex, rest);
    assert s[|before| + |SIG_MARKER| + |hex| + 1..] == rest[1..] == tail;
  }

  lemma {:induction false} TimestampFound(before: string, ts: uint64)
    ensures ReadTimestamp(before + (TS_MARKER + NatToString(ts)) + "}") == Some(ts)
    ensures DropTimestamp(before + (TS_MARKER + NatToString(ts)) + "}") == before + "}"
  {
    hide RFind, FindFirstOf, NatToString, Stoull, TS_MARKER;
    var digits := NatToString(ts);
    var s := before + (TS_MARKER + digits) + "}";
    Markers();
    assert s == before + TS_MARKER + digits + "}";
    FieldIsLast(s, before, TS_MARKER, digits, "}", {',', '}'});
    Pieces(s, before, TS_MARKER, digits, "}");
    StoullOfNatToString(ts, "");
    assert digits + "" == digits;
  }

  lemma {:induction false} NonceFound(before: string, nonce: seq<byte>)
    ensures DropNonce(before + (NONCE_MARKER + ToHex(nonce) + "\"") + "}") == before + "}"
  {
    hide RFind, FindFirstOf, ToHex, NONCE_MARKER;
    var hex := ToHex(nonce);
    var s := before + (NONCE_MARKER + hex + "\"") + "}";
    Markers();
    assert s == before + NONCE_MARKER + hex + "\"}";
    FieldIsLast(s, before, NONCE_MARKER, hex, "\"}", {'"'});
    Pieces(s, before, NONCE_MARKER, hex, "\"}");
    assert s[|before| + |NONCE_MARKER| + |hex| + 1..] == "\"}"[1..] == "}";
  }

  /** Fields that are missing or have no end: nothing is cut without a marker, an unfinished field is cut
      to the end of the text, except for a nonce marker at the very start. */
  lemma UnfinishedFields(s: string)
    ensures RFind(s, ",\"ts\":").None? ==> DropTimestamp(s) == s && ReadTimestamp(s).None?
    ensures RFind(s, ",\"nonce\":\"").None? ==> DropNonce(s) == s
    ensures RFind(s, ",\"ts\":").Some? ==>
              var pos := RFind(s, ",\"ts\":").value;
              FindFirstOf(s, {',', '}'}, pos + 6).None? ==>
                DropTimestamp(s) == s[..pos] && ReadTimestamp(s) == Stoull(s[pos + 6..])
    ensures RFind(s, ",\"nonce\":\"").Some? ==>
              var pos := RFind(s, ",\"nonce\":\"").value;
              FindFirstOf(s, {'"'}, pos + 10).None? ==> DropNonce(s) == if pos == 0 then s else s[..pos]
  {
    hide RFind, FindFirstOf, Stoull;
    assert forall i :: 0 <= i <= |s| ==> s[..i] + s[|s|..] == s[..i];
    assert s[..|s|] == s;
  }

  /** The receiver gets the original message back exactly when the message ended with a brace, the
      sender could sign it and it arrives within the replay window. The message may itself contain
      any of the three markers. */
  lemma {:induction false} VerifyAndStripUndoesAttach(payload: string, nonce: seq<byte>, ts: uint64, now: uint64,
                                                      scheme: Scheme, pubHex: string)
    requires KeyPair(scheme, pubHex)
    ensures VerifyAndStrip(Attach(payload, nonce, ts, scheme), pubHex, now, scheme) == (Accepted, payload) <==>
            EndsWithBrace(payload) && scheme.sign(SignedText(payload, nonce, ts)).Some? && InWindow(ts, now)
  {
    var signature := scheme.sign(SignedText(payload, nonce, ts));
    if EndsWithBrace(payload) && signature.Some? {
      RoundTrip(payload, nonce, ts, now, scheme, pubHex);
    }
  }

  lemma {:induction false} RoundTrip(payload: string, nonce: seq<byte>, ts: uint64, now: uint64, scheme: Scheme,
                                     pubHex: string)
    requires KeyPair(scheme, pubHex) && EndsWithBrace(payload)
    requires scheme.sign(SignedText(payload, nonce, ts)).Some?
    ensures VerifyAndStrip(Attach(payload, nonce, ts, scheme), pubHex, now, scheme) ==
            if InWindow(ts, now) then (Accepted, payload) else (Rejected, Attach(payload, nonce, ts, scheme))
  {
    hide FindSig, ReadTimestamp, DropTimestamp, DropNonce, InWindow, FromHex, ToHex, NatToString, Erase;
    var body, text := payload[..|payload| - 1], SignedText(payload, nonce, ts);
    var signature := scheme.sign(text).value;
    var stampedNonce := NONCE_MARKER + ToHex(nonce) + "\"";
    var stampedTs := TS_MARKER + NatToString(ts);
    assert payload == body + "}" && text == body + (stampedNonce + stampedTs) + "}";
    var before := body + stampedNonce + stampedTs;
    assert text == before + "}" && text[..|text| - 1] == before;
    SigFieldFound(before, signature, "}");
    HexRoundTrip(signature);
    TimestampFound(body + stampedNonce, ts);
    NonceFound(body, nonce);
    assert pubHex != "" by { assert FromHex(pubHex).Some? && |FromHex(pubHex).value| == PUB_KEY_SIZE; EmptyHex(); }
  }

  lemma EmptyHex()
    ensures FromHex("") == Some([])
  {
  }

  /** The signature covers what stands before its field: with any other text behind the closing quote,
      as long as it holds no comma, the verdict is the same as with the single brace a sender writes,
      and on acceptance that text is delivered as it came, behind the stripped fields. */
  lemma {:induction false} TailIsDelivered(before: string, signature: seq<byte>, tail: string, pubHex: string,
                                           now: uint64, scheme: Scheme)
    requires ',' !in tail
    ensures var r := VerifyAndStrip(before + SigField(signature) + tail, pubHex, now, scheme);
            && r.0 == VerifyAndStrip(before + SigField(signature) + "}", pubHex, now, scheme).0
            && (r.0 == Accepted ==> r.1 == DropNonce(DropTimestamp(before + tail)))
  {
    hide FindSig, SigField, ReadTimestamp, DropTimestamp, DropNonce, InWindow, FromHex, ToHex, Erase, Verify;
    SigFieldFound(before, signature, tail);
    SigFieldFound(before, signature, "}");
  }

  /** When any text at all is accepted: exactly when the key accepts everything before the last sig
      field, closed by a brace, and that text carries a timestamp within the window. */
  lemma AcceptedExactly(payload: string, pubHex: string, now: uint64, scheme: Scheme)
    ensures VerifyAndStrip(payload, pubHex, now, scheme).0 == Accepted <==>
              FindSig(payload).Some? && FromHex(pubHex).Some? && |FromHex(pubHex).value| == 33 &&
              var (pos, end) := FindSig(payload).value;
              var text, signature := payload[..pos] + "}", FromHex(payload[pos + 8..end]);
              RFind(payload, ",\"sig\":\"") == Some(pos) && FindFirstOf(payload, {'"'}, pos + 8) == Some(end) &&
              signature.Some? && signature.value != [] &&
              scheme.check(FromHex(pubHex).value, text, signature.value) &&
              ReadTimestamp(text).Some? && InWindow(ReadTimestamp(text).value, now)
  {
    EmptyHex();
    hide FindSig, ReadTimestamp, InWindow, FromHex, DropNonce, DropTimestamp, RFind, FindFirstOf;
    SigFieldIs(payload);
  }

  lemma SigFieldIs(payload: string)
    ensures FindSig(payload).Some? ==>
              var (pos, end) := FindSig(payload).value;
              RFind(payload, ",\"sig\":\"") == Some(pos) && FindFirstOf(payload, {'"'}, pos + 8) == Some(end)
  {
    hide RFind, FindFirstOf;
  }

  /** The window as a statement about the two clock readings: at most 30 seconds old and not from the
      future, or wrapped around the end of 64 bits. */
  lemma WindowMeaning(ts: uint64, now: uint64)
    ensures InWindow(ts, now) <==> ts <= now <= ts + 30_000 || now + 0x1_0000_0000_0000_0000 <= ts + 30_000
  {
    var d := now as int - ts as int;
    assert d >= 0 ==> d % UINT64_LIMIT == d;
    assert d < 0 ==> d % UINT64_LIMIT == d + UINT64_LIMIT;
  }

  // ----------------------------------------------------- what is signed

  /** A marker stays the last of its kind when only one different marker follows. */
  lemma {:induction false} MarkerBeforeOther(before: string, marker: string, text: string, other: string, tail: string)
    requires |marker| > 2 && marker[0] == ',' && ',' !in marker[1..]
    requires |other| > 2 && other[0] == ',' && ',' !in other[1..] && other[2] != marker[2]
    requires ',' !in text && ',' !in tail
    ensures RFind(before + marker + text + other + tail, marker) == Some(|before|)
  {
    var s := before + marker + text + other + tail;
    var mid, end := marker[1..] + text, other[1..] + tail;
    var comma := |before| + 1 + |mid|;
    assert s == before + "," + mid + "," + end;
    assert forall k :: |before| < k < comma ==> s[k] == mid[k - |before| - 1];
    assert forall k :: comma < k < |s| ==> s[k] == end[k - comma - 1];
    assert s[comma + 2] == other[2];
    assert StandsAt(s, |before|, marker) by { assert s[|before|..|before| + |marker|] == marker; }
    forall j: nat | StandsAt(s, j, marker)
      ensures j <= |before|
    {
      assert s[j..j + |marker|][0] == s[j] && s[j..j + |marker|][2] == s[j + 2];
    }
  }

  /** What stands between the last nonce marker and the next quote reads as the nonce, the number behind
      the last ts marker is the timestamp, and without both fields the payload is left. */
  lemma {:induction false} SignedTextHolds(payload: string, nonce: seq<byte>, ts: uint64)
    requires |payload| > 0 && payload[|payload| - 1] == '}'
    ensures var s := SignedText(payload, nonce, ts);
            var start, quote := |payload| - 1, |payload| + 9 + 2 * |nonce|;
            && RFind(s, ",\"nonce\":\"") == Some(start)
            && FindFirstOf(s, {'"'}, start + 10) == Some(quote)
            && quote + 8 < |s| && FromHex(s[start + 10..quote]) == Some(nonce)
            && s[quote..quote + 7] == "\",\"ts\":" && Stoull(s[quote + 7..|s| - 1]) == Some(ts)
            && s[|s| - 1] == '}' && s[..start] + "}" == payload
  {
    hide RFind, FindFirstOf, ToHex, FromHex, NatToString, Stoull, SignedText;
    var body, hex, digits, s := payload[..|payload| - 1], ToHex(nonce), NatToString(ts), SignedText(payload, nonce, ts);
    HexRoundTrip(nonce);
    StoullOfNatToString(ts, "");
    assert digits + "" == digits;
    SignedTextIs(payload, nonce, ts);
    FieldsFound(s, body, hex, digits);
    FieldsStand(s, body, hex, digits);
    assert payload == body + "}";
  }

  lemma {:induction false} SignedTextIs(payload: string, nonce: seq<byte>, ts: uint64)
    requires EndsWithBrace(payload)
    ensures SignedText(payload, nonce, ts) ==
            payload[..|payload| - 1] + ",\"nonce\":\"" + ToHex(nonce) + ("\",\"ts\":" + NatToString(ts) + "}")
  {
    hide ToHex, NatToString;
  }

  lemma {:induction false} FieldsFound(s: string, body: string, hex: string, digits: string)
    requires s == body + ",\"nonce\":\"" + hex + ("\",\"ts\":" + digits + "}")
    requires ',' !in hex && '"' !in hex && ',' !in digits
    ensures RFind(s, ",\"nonce\":\"") == Some(|body|)
    ensures FindFirstOf(s, {'"'}, |body| + 10) == Some(|body| + 10 + |hex|)
  {
    hide *;
    var nonce, ts, rest := ",\"nonce\":\"", ",\"ts\":", "\",\"ts\":" + digits + "}";
    assert s == body + nonce + (hex + "\"") + ts + (digits + "}");
    MarkerBeforeOther(body, nonce, hex + "\"", ts, digits + "}");
    FindsEnd(body + nonce, hex, rest, {'"'});
  }

  lemma {:induction false} FieldsStand(s: string, body: string, hex: string, digits: string)
    requires s == body + ",\"nonce\":\"" + hex + ("\",\"ts\":" + digits + "}")
    ensures |s| == |body| + 18 + |hex| + |digits|
    ensures s[|body| + 10..|body| + 10 + |hex|] == hex && s[..|body|] == body
    ensures s[|body| + 10 + |hex|..|body| + 17 + |hex|] == "\",\"ts\":"
    ensures s[|body| + 17 + |hex|..|s| - 1] == digits && s[|s| - 1] == '}'
  {
    var nonce, ts := ",\"nonce\":\"", "\",\"ts\":";
    Pieces(s, body, nonce, hex, ts + digits + "}");
    assert s == body + nonce + hex + ts + digits + "}";
    Pieces(s, body + nonce + hex, ts, digits, "}");
    assert s[|body + nonce + hex|..][..7] == ts;
  }

  /** Different messages, nonces or timestamps are never signed as the same text. */
  lemma {:induction false} SignedTextsDiffer(payload: string, nonce: seq<byte>, ts: uint64,
                                             other: string, otherNonce: seq<byte>, otherTs: uint64)
    requires |payload| > 0 && payload[|payload| - 1] == '}' && |other| > 0 && other[|other| - 1] == '}'
    requires SignedText(payload, nonce, ts) == SignedText(other, otherNonce, otherTs)
    ensures payload == other && nonce == otherNonce && ts == otherTs
  {
    hide *;
    SignedTextHolds(payload, nonce, ts);
    SignedTextHolds(other, otherNonce, otherTs);
  }

  /** What is sent: the signed text with the signature in front of its closing brace, and the payload as
      it was when signing fails or it ends with no brace. */
  lemma {:induction false} AttachedHolds(payload: string, nonce: seq<byte>, ts: uint64, scheme: Scheme)
    ensures var s, text := Attach(payload, nonce, ts, scheme), SignedText(payload, nonce, ts);
            var signature := scheme.sign(text);
            && (signature.None? || !EndsWithBrace(payload) ==> s == payload)
            && (signature.Some? && EndsWithBrace(payload) ==>
                  var start, quote := |text| - 1, |text| + 7 + 2 * |signature.value|;
                  && |s| == quote + 2 && RFind(s, ",\"sig\":\"") == Some(start)
                  && FromHex(s[start + 8..quote]) == signature
                  && s[quote..] == "\"}" && s[..start] + "}" == text)
  {
    hide RFind, FindFirstOf, ToHex, FromHex, Stamp;
    var text := SignedText(payload, nonce, ts);
    var signature := scheme.sign(text);
    if signature.Some? && EndsWithBrace(payload) {
      var before, hex := text[..|text| - 1], ToHex(signature.value);
      var s := Attach(payload, nonce, ts, scheme);
      assert text == before + "}";
      assert s == before + SIG_MARKER + hex + "\"}";
      MarkerIsLast(before, SIG_MARKER, hex + "\"}");
      assert before + SIG_MARKER + (hex + "\"}") == s;
      Pieces(s, before, SIG_MARKER, hex, "\"}");
      HexRoundTrip(signature.value);
    }
  }

  // ---------------------------------------------------------------- methods

  /** The statements of AttachSignature. */
  method AttachSignature(payload: string, nonce: seq<byte>, ts: uint64, scheme: Scheme) returns (result: string)
    ensures result == Attach(payload, nonce, ts, scheme)
  {
    var signedPayload := payload;
    if EndsWithBrace(signedPayload) {
      var nonceHex := WriteHex(nonce);
      signedPayload := signedPayload[..|signedPayload| - 1];
      signedPayload := signedPayload + (NONCE_MARKER + nonceHex + "\"");
      signedPayload := signedPayload + (TS_MARKER + NatToString(ts));
      signedPayload := signedPayload + "}";
    }
    assert signedPayload == SignedText(payload, nonce, ts);
    var signature := scheme.sign(signedPayload);
    if signature.None? { return payload; }
    result := signedPayload;
    if EndsWithBrace(result) {
      result := result[..|result| - 1];
      var sigHex := WriteHex(signature.value);
      result := result + (SIG_MARKER + sigHex + "\"}");
      assert SigField(signature.value) + "}" == SIG_MARKER + sigHex + "\"}";
    }
  }

  /** A received message, stripped in place. */
  class Message {
    var payload: string

    constructor (text: string)
      ensures payload == text
    {
      payload := text;
    }

    method Strip(pubHex: string, now: uint64, scheme: Scheme) returns (verdict: Verdict)
      modifies this
      ensures (verdict, payload) == VerifyAndStrip(old(payload), pubHex, now, scheme)
    {
      hide RFind, FindFirstOf, FromHex, ReadTimestamp, InWindow, Verify, Erase, SIG_MARKER, TS_MARKER, NONCE_MARKER;
      var sigPos := RFind(payload, SIG_MARKER);
      if sigPos.None? { return Rejected; }
      var sigStart := sigPos.value + |SIG_MARKER|;
      var sigEnd := FindFirstOf(payload, {'"'}, sigStart);
      if sigEnd.None? { return Rejected; }
      var sigBytes := ReadHex(payload[sigStart..sigEnd.value]);
      if sigBytes.None? { return Threw; }
      if sigBytes.value == [] { return Rejected; }

      var verifyPayload := payload[..sigPos.value] + "}";
      var msgTs := ReadTimestamp(verifyPayload);
      if msgTs.None? { return Rejected; }
      if !InWindow(msgTs.value, now) { return Rejected; }
      var ok := Verify(verifyPayload, sigBytes.value, pubHex, scheme);
      if ok.None? { return Threw; }
      if !ok.value { return Rejected; }

      payload := Erase(payload, sigPos.value, sigEnd.value + 1);
      var tsPos := RFind(payload, TS_MARKER);
      if tsPos.Some? {
        var tsEnd := FindFirstOf(payload, {',', '}'}, tsPos.value + |TS_MARKER|);
        payload := Erase(payload, tsPos.value, if tsEnd.Some? then tsEnd.value else |payload|);
      }
      var noncePos := RFind(payload, NONCE_MARKER);
      if noncePos.Some? {
        var nonceEnd := FindFirstOf(payload, {'"'}, noncePos.value + |NONCE_MARKER|);
        if nonceEnd.Some? {
          payload := Erase(payload, noncePos.value, nonceEnd.value + 1);
        } else if noncePos.value != 0 {
          payload := Erase(payload, noncePos.value, |payload|);
        }
      }
      return Accepted;
    }
  }
}
