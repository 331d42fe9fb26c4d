/** The two-player text protocol: a message is a prefix followed by either
    a decimal row count or a free text, written to the peer as one string;
    the listener classifies each chunk it reads by its prefix. */
module Multiplayer {
  import opened Wrappers

  datatype Message = ClearedRows(rows: nat) | Notification(text: string)

  const ClearedRowsPrefix: string := "ClearedRows: "
  const NotificationPrefix: string := "Notification: "

  /** The largest usize on a 64-bit target. */
  const UsizeMax: nat := 0x1_0000_0000_0000_0000 - 1

  predicate StartsWith(s: string, prefix: string) {
    |prefix| <= |s| && forall i :: 0 <= i < |prefix| ==> s[i] == prefix[i]
  }

  // ---------------------------------------------------------------------
  // Decimal numbers

  predicate IsDigit(ch: char) {
    '0' <= ch <= '9'
  }

  predicate AllDigits(s: string) {
    forall i :: 0 <= i < |s| ==> IsDigit(s[i])
  }

  function DigitChar(d: nat): (ch: char)
    requires d < 10
    ensures IsDigit(ch) && ch as int - '0' as int == d
  {
    (d + '0' as int) as char
  }

  /** The value of a string of decimal digits, most significant first. */
  function DigitsValue(s: string): nat
    requires AllDigits(s)
  {
    if s == [] then 0 else DigitsValue(s[..|s| - 1]) * 10 + (s[|s| - 1] as int - '0' as int)
  }

  /** The decimal rendering of n, as `format!("{}", n)` writes a usize. */
  function Decimal(n: nat): (s: string)
    ensures |s| >= 1 && AllDigits(s)
    ensures |s| > 1 ==> s[0] != '0'
  {
    if n < 10 then [DigitChar(n)] else Decimal(n / 10) + [DigitChar(n % 10)]
  }

  /** Reading back a rendered number gives the number. */
  lemma {:induction false} DecimalValue(n: nat)
    ensures DigitsValue(Decimal(n)) == n
  {
    if n >= 10 {
      DecimalValue(n / 10);
      assert Decimal(n)[..|Decimal(n)| - 1] == Decimal(n / 10);
    }
  }

  /** `str::parse::<usize>`: an optional '+', then one or more decimal
      digits, with a value that fits in a usize; anything else is an error. */
  function ParseUsize(s: string): (r: Option<nat>)
    ensures r.Some? ==> r.value <= UsizeMax
  {
    var digits := if |s| > 0 && s[0] == '+' then s[1..] else s;
    if digits == [] || !AllDigits(digits) then None
    else if DigitsValue(digits) > UsizeMax then None
    else Some(DigitsValue(digits))
  }

  /** A parse succeeds exactly on the strings made of an optional '+' and a
      non-empty run of digits whose value fits. */
  lemma ParseUsizeAccepts(s: string)
    ensures ParseUsize(s).Some? <==>
      (exists sign: string, digits: string ::
        s == sign + digits && (sign == "" || sign == "+") && digits != [] &&
        AllDigits(digits) && DigitsValue(digits) <= UsizeMax)
  {
    var digits := if |s| > 0 && s[0] == '+' then s[1..] else s;
    var sign := if |s| > 0 && s[0] == '+' then "+" else "";
    assert s == sign + digits;
    if ParseUsize(s).None? {
      forall sign': string, digits': string |
        s == sign' + digits' && (sign' == "" || sign' == "+") && digits' != [] && AllDigits(digits')
        ensures DigitsValue(digits') > UsizeMax
      {
        if sign' == "" {
          assert digits'[0] == s[0];
          assert !IsDigit('+');
          assert digits' == digits;
        } else {
          assert digits' == s[1..];
        }
      }
    }
  }

  // ---------------------------------------------------------------------
  // Encoding and decoding

  /** send_to_other_player's formatting of a message. */
  function Encode(m: Message): string {
    match m
    case ClearedRows(n) => ClearedRowsPrefix + Decimal(n)
    case Notification(text) => NotificationPrefix + text
  }

  /** `trim_start_matches`: remove the prefix as long as the string starts
      with it. */
  function TrimStartMatches(s: string, prefix: string): (r: string)
    requires |prefix| > 0
    ensures |r| <= |s| && !StartsWith(r, prefix)
    decreases |s|
  {
    if StartsWith(s, prefix) then TrimStartMatches(s[|prefix|..], prefix) else s
  }

  /** The classification of one non-empty chunk by forward_to_main_thread:
      the row-count prefix is checked first, and a chunk that matches neither
      prefix, or whose count does not parse, is dropped. */
  function Decode(chunk: string): Option<Message> {
    if StartsWith(chunk, ClearedRowsPrefix) then
      match ParseUsize(TrimStartMatches(chunk, ClearedRowsPrefix))
      case Some(n) => Some(ClearedRows(n))
      case None => None
    else if StartsWith(chunk, NotificationPrefix) then
      Some(Notification(TrimStartMatches(chunk, NotificationPrefix)))
    else
      None
  }

  /** Only chunks carrying one of the two prefixes are ever forwarded. */
  lemma DecodeNeedsPrefix(chunk: string)
    ensures Decode(chunk).Some? ==> StartsWith(chunk, ClearedRowsPrefix) || StartsWith(chunk, NotificationPrefix)
    ensures Decode(chunk).Some? && Decode(chunk).value.ClearedRows? ==> StartsWith(chunk, ClearedRowsPrefix)
    ensures Decode(chunk).Some? && Decode(chunk).value.Notification? ==>
      StartsWith(chunk, NotificationPrefix) && !StartsWith(chunk, ClearedRowsPrefix)
  {
  }

  /** Removing a prefix that the rest does not start with. */
  lemma TrimOnce(prefix: string, rest: string)
    requires |prefix| > 0 && !StartsWith(rest, prefix)
    ensures TrimStartMatches(prefix + rest, prefix) == rest
  {
    assert (prefix + rest)[..|prefix|] == prefix;
    assert (prefix + rest)[|prefix|..] == rest;
  }

  /** A row count that fits in a usize survives the trip through the wire. */
  lemma ClearedRowsRoundTrip(n: nat)
    requires n <= UsizeMax
    ensures Decode(Encode(ClearedRows(n))) == Some(ClearedRows(n))
  {
    var d := Decimal(n);
    assert !StartsWith(d, ClearedRowsPrefix) by {
      assert IsDigit(d[0]);
    }
    TrimOnce(ClearedRowsPrefix, d);
    DecimalValue(n);
    assert d[0] != '+';
  }

  /** A text survives the trip exactly when it does not itself begin with
      the notification prefix; otherwise every leading copy is stripped. */
  lemma NotificationRoundTrip(text: string)
    ensures Decode(Encode(Notification(text))) == Some(Notification(text)) <==> !StartsWith(text, NotificationPrefix)
    ensures Decode(Encode(Notification(text))) == Some(Notification(TrimStartMatches(text, NotificationPrefix)))
  {
    var s := NotificationPrefix + text;
    assert s[..|NotificationPrefix|] == NotificationPrefix;
    assert s[0] == 'N';
    assert !StartsWith(s, ClearedRowsPrefix) by {
      assert s[..|ClearedRowsPrefix|][0] == s[0];
    }
    assert s[|NotificationPrefix|..] == text;
    assert TrimStartMatches(s, NotificationPrefix) == TrimStartMatches(text, NotificationPrefix);
    if StartsWith(text, NotificationPrefix) {
      var shorter := TrimStartMatches(text[|NotificationPrefix|..], NotificationPrefix);
      assert TrimStartMatches(text, NotificationPrefix) == shorter;
      assert |shorter| < |text|;
    }
  }

  /** The game's own notification reaches the peer unchanged. */
  lemma YouWinRoundTrip()
    ensures Decode(Encode(Notification("YOU WIN!"))) == Some(Notification("YOU WIN!"))
  {
    NotificationRoundTrip("YOU WIN!");
    assert !StartsWith("YOU WIN!", NotificationPrefix);
  }

  /** When two row counts arrive in one chunk, the digits of the first run
      into the second prefix, the count does not parse, and both are lost. */
  lemma CoalescedCountsDropped()
    ensures Decode(Encode(ClearedRows(2)) + Encode(ClearedRows(1))) == None
  {
    var chunk := Encode(ClearedRows(2)) + Encode(ClearedRows(1));
    var rest := "2" + ClearedRowsPrefix + "1";
    assert Decimal(2) == "2" && Decimal(1) == "1";
    assert chunk == ClearedRowsPrefix + rest;
    assert !StartsWith(rest, ClearedRowsPrefix);
    TrimOnce(ClearedRowsPrefix, rest);
    assert !IsDigit(rest[1]);
  }

  // ---------------------------------------------------------------------
  // The listener loop

  /** The outcome of one read from the peer's socket: the chunk read (empty
      when the peer closed the connection) or an error. */
  datatype ReadResult = Read(chunk: string) | Failed

  /** A read that ends the loop: an error or a read of zero bytes. */
  predicate Stops(r: ReadResult) {
    r.Failed? || r.chunk == []
  }

  /** The messages one chunk yields: its decoding, if any. */
  function Yield(decoded: Option<Message>): seq<Message> {
    match decoded case Some(m) => [m] case None => []
  }

  /** The messages forward_to_main_thread passes on for a sequence of
      reads: at most one per non-empty chunk, in order, up to the first
      empty read or error. */
  function Forwarded(results: seq<ReadResult>): seq<Message> {
    if results == [] || Stops(results[0]) then []
    else Yield(Decode(results[0].chunk)) + Forwarded(results[1..])
  }

  /** Index of the first read that ends the loop, or |results| if none does. */
  function StopIndex(results: seq<ReadResult>): (k: nat)
    ensures k <= |results|
  {
    if results == [] || Stops(results[0]) then 0 else 1 + StopIndex(results[1..])
  }

  /** Nothing after the stopping read is looked at, and there are never
      more messages than reads before it. */
  lemma {:induction false} ForwardedBound(results: seq<ReadResult>)
    ensures |Forwarded(results)| <= StopIndex(results)
    ensures Forwarded(results) == Forwarded(results[..StopIndex(results)])
  {
    if results != [] && !Stops(results[0]) {
      ForwardedBound(results[1..]);
      assert results[..StopIndex(results)][1..] == results[1..][..StopIndex(results[1..])];
    }
  }

  /** A read that does not stop the loop contributes its decoding. */
  lemma ForwardedCons(results: seq<ReadResult>, decoded: Option<Message>)
    requires results != [] && !Stops(results[0]) && decoded == Decode(results[0].chunk)
    ensures Forwarded(results) == Yield(decoded) + Forwarded(results[1..])
  {
  }

  lemma AppendAssoc(a: seq<Message>, b: seq<Message>, c: seq<Message>)
    ensures a + (b + c) == (a + b) + c
  {
  }

  /** The prefix test, strip and parse applied to one chunk. */
  method Classify(chunk: string) returns (decoded: Option<Message>)
    ensures decoded == Decode(chunk)
  {
    if StartsWith(chunk, ClearedRowsPrefix) {
      var rows := ParseUsize(TrimStartMatches(chunk, ClearedRowsPrefix));
      decoded := if rows.Some? then Some(ClearedRows(rows.value)) else None;
    } else if StartsWith(chunk, NotificationPrefix) {
      decoded := Some(Notification(TrimStartMatches(chunk, NotificationPrefix)));
    } else {
      decoded := None;
    }
  }

  /** The listener started on a connection: reads each chunk into its
      buffer, forwards the decoded message if there is one, and stops at the
      first empty read or error. */
  method ForwardToMainThread(results: seq<ReadResult>) returns (sent: seq<Message>)
    ensures sent == Forwarded(results)
  {
    sent := [];
    var rest := results;
    while rest != [] && !Stops(rest[0])
      invariant sent + Forwarded(rest) == Forwarded(results)
      decreases |rest|
    {
      var decoded := Classify(rest[0].chunk);
      ForwardedCons(rest, decoded);
      AppendAssoc(sent, Yield(decoded), Forwarded(rest[1..]));
      if decoded.Some? {
        sent := sent + [decoded.value];
      }
      rest := rest[1..];
    }
  }

  /** A message that decodes to itself. */
  predicate Transmittable(m: Message) {
    match m
    case ClearedRows(n) => n <= UsizeMax
    case Notification(text) => !StartsWith(text, NotificationPrefix)
  }

  lemma EncodedYield(m: Message)
    requires Transmittable(m)
    ensures Encode(m) != [] && Yield(Decode(Encode(m))) == [m]
  {
    match m
    case ClearedRows(n) =>
      ClearedRowsRoundTrip(n);
    case Notification(text) =>
      NotificationRoundTrip(text);
  }

  /** The reads of a connection on which every message arrives in a read
      of its own and the peer then closes the connection. */
  function OneReadEach(msgs: seq<Message>): (results: seq<ReadResult>)
    ensures |results| == |msgs| + 1 && results[|msgs|] == Read("")
    ensures forall i :: 0 <= i < |msgs| ==> results[i] == Read(Encode(msgs[i]))
  {
    if msgs == [] then [Read("")] else [Read(Encode(msgs[0]))] + OneReadEach(msgs[1..])
  }

  /** A read carrying a transmittable message forwards exactly it. */
  lemma ForwardedEncodedCons(m: Message, results: seq<ReadResult>)
    requires Transmittable(m) && results != [] && results[0] == Read(Encode(m))
    ensures Forwarded(results) == [m] + Forwarded(results[1..])
  {
    EncodedYield(m);
    ForwardedCons(results, Decode(Encode(m)));
  }

  /** On such a connection the listener forwards exactly the messages sent. */
  lemma {:induction false} ForwardedEncoded(msgs: seq<Message>)
    requires forall i :: 0 <= i < |msgs| ==> Transmittable(msgs[i])
    ensures Forwarded(OneReadEach(msgs)) == msgs
  {
    if msgs != [] {
      ForwardedEncoded(msgs[1..]);
      assert OneReadEach(msgs)[1..] == OneReadEach(msgs[1..]);
      ForwardedEncodedCons(msgs[0], OneReadEach(msgs));
    }
  }
}
