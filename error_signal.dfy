/**
 * The decision the `toastr.error` interceptor makes for the active provider's
 * failing key: remove it, rotate away from it, or leave it, together with the
 * reason text recorded in the recycle bin.
 */
module ErrorSignal {

  import opened Wrappers
  import Decimal

  /** `\w` without the `u` flag. */
  predicate IsWordChar(c: char) {
    ('a' <= c <= 'z') || ('A' <= c <= 'Z') || Decimal.IsDigit(c) || c == '_'
  }

  /** `\b\d{3}\b` matches at `i`: three digits with no word character on either side. */
  predicate IsCodeAt(s: string, i: int) {
    0 <= i && i + 3 <= |s| &&
    Decimal.IsDigit(s[i]) && Decimal.IsDigit(s[i + 1]) && Decimal.IsDigit(s[i + 2]) &&
    (i == 0 || !IsWordChar(s[i - 1])) &&
    (i + 3 == |s| || !IsWordChar(s[i + 3]))
  }

  /** The match `String.prototype.match` reports: the leftmost one. */
  predicate IsLeftmostCodeAt(s: string, i: int) {
    IsCodeAt(s, i) && forall j :: 0 <= j < i ==> !IsCodeAt(s, j)
  }

  /** `parseInt` of the three digits at `i`. */
  function CodeValueAt(s: string, i: int): (v: nat)
    requires IsCodeAt(s, i)
    ensures v < 1000
    ensures v == 100 * Decimal.DigitValue(s[i]) + 10 * Decimal.DigitValue(s[i + 1]) + Decimal.DigitValue(s[i + 2])
  {
    Decimal.ThreeDigits(s[i..i + 3]);
    Decimal.DigitsValue(s[i..i + 3])
  }

  /** The regular-expression scan: the first match position at or after `from`. */
  function FindCodeFrom(s: string, from: nat): (r: Option<nat>)
    ensures r.Some? ==> (from <= r.value && IsCodeAt(s, r.value) &&
      forall j :: from <= j < r.value ==> !IsCodeAt(s, j))
    ensures r.None? ==> forall j :: from <= j ==> !IsCodeAt(s, j)
    decreases |s| - from
  {
    if from + 3 > |s| then None
    else if IsCodeAt(s, from) then Some(from)
    else FindCodeFrom(s, from + 1)
  }

  /**
   * `message.match(/\b(\d{3})\b/)` followed by `parseInt(_, 10)`: the value of
   * the leftmost three-digit token, or `None` when there is no such token.
   */
  function StatusCode(message: string): (r: Option<nat>)
    ensures r.None? <==> forall i :: !IsCodeAt(message, i)
    ensures r.Some? ==> exists i :: IsLeftmostCodeAt(message, i) && r.value == CodeValueAt(message, i)
  {
    match FindCodeFrom(message, 0)
    case None => None
    case Some(i) =>
      var v := CodeValueAt(message, i);
      assert IsLeftmostCodeAt(message, i);
      Some(v)
  }

  /** `REMOVAL_STATUS_CODES`. */
  const RemovalCodes: seq<nat> := [400, 401, 402, 403, 404, 429]

  /** The alternatives of `REMOVAL_MESSAGE_REGEX`, written in lower case (the pattern has the `i` flag). */
  const RemovalWords: seq<string> := ["unauthorized", "forbidden", "permission", "invalid", "exceeded", "internal", "budget", "payment"]

  /** Case folding as a pattern with the `i` flag and without `u` applies it: ASCII letters only. */
  function LowerAscii(c: char): char {
    if 'A' <= c <= 'Z' then ((c as int) + 32) as char else c
  }

  /** The lower-case word `w` occurs at `i` in `s`, ignoring ASCII case. */
  predicate OccursAt(s: string, w: string, i: int) {
    0 <= i && i + |w| <= |s| && forall j :: 0 <= j < |w| ==> LowerAscii(s[i + j]) == w[j]
  }

  function ContainsFrom(s: string, w: string, from: nat): (r: bool)
    ensures r <==> exists i :: from <= i && OccursAt(s, w, i)
    decreases |s| - from
  {
    if from + |w| > |s| then false
    else OccursAt(s, w, from) || ContainsFrom(s, w, from + 1)
  }

  /** `REMOVAL_MESSAGE_REGEX.test(message)`. */
  function HasRemovalWord(message: string): (r: bool)
    ensures r <==> exists k, i :: 0 <= k < |RemovalWords| && OccursAt(message, RemovalWords[k], i)
  {
    exists k :: 0 <= k < |RemovalWords| && ContainsFrom(message, RemovalWords[k], 0)
  }

  /** `${statusCode ? statusCode + ': ' : ''}`: a zero or absent code writes nothing. */
  function CodePrefix(code: Option<nat>): (r: string)
    ensures r == "" <==> code.None? || code.value == 0
    ensures r != "" ==>
      |r| >= 3 && r[|r| - 2..] == ": " && Decimal.AllDigits(r[..|r| - 2]) &&
      Decimal.DigitsValue(r[..|r| - 2]) == code.value &&
      r[..|r| - 2] == Decimal.DecimalString(code.value) && (|r| > 3 ==> r[0] != '0')
  {
    if code.Some? && code.value != 0 then Decimal.DecimalString(code.value) + ": " else ""
  }

  /** The position of the first line feed at or after `from`, or the end of `s`. */
  function LineEnd(s: string, from: nat): (e: nat)
    requires from <= |s|
    ensures from <= e <= |s| && (e == |s| || s[e] == '\n')
    ensures forall j :: from <= j < e ==> s[j] != '\n'
    decreases |s| - from
  {
    if from == |s| || s[from] == '\n' then from else LineEnd(s, from + 1)
  }

  /** `message.split('\n')[0]`. */
  function FirstLine(s: string): (r: string)
    ensures |r| <= |s| && r == s[..|r|] && '\n' !in r
    ensures |r| == |s| || s[|r|] == '\n'
  {
    var e := LineEnd(s, 0);
    assert forall j :: 0 <= j < e ==> s[..e][j] != '\n';
    s[..e]
  }

  /** `.slice(0, n)`. */
  function Truncate(s: string, n: nat): (r: string)
    ensures |r| <= n && |r| <= |s| && r == s[..|r|]
    ensures |r| == n || r == s
  {
    if |s| <= n then s else s[..n]
  }

  const ReasonLength: nat := 120

  /**
   * The removal reason. `embedded` is the `error.message` of the JSON object
   * embedded in the message, when there is one, it parses and it has that field;
   * otherwise (or when it is empty) the first line of the message, cut to 120
   * characters, is used. Either way the code prefix comes first.
   */
  function BuildReason(code: Option<nat>, message: string, embedded: Option<string>): (r: string)
    ensures |r| >= |CodePrefix(code)| && r[..|CodePrefix(code)|] == CodePrefix(code)
    ensures embedded.Some? && embedded.value != "" ==> r[|CodePrefix(code)|..] == embedded.value
    ensures !(embedded.Some? && embedded.value != "") ==>
      var body := r[|CodePrefix(code)|..];
      |body| <= ReasonLength && |body| <= |message| && body == message[..|body|] && '\n' !in body &&
      (|body| == ReasonLength || |body| == |message| || message[|body|] == '\n')
  {
    var body := if embedded.Some? && embedded.value != "" then embedded.value
                else Truncate(FirstLine(message), ReasonLength);
    var r := CodePrefix(code) + body;
    assert r[|CodePrefix(code)|..] == body;
    r
  }

  /** What the interceptor does with the active provider's key. */
  datatype Decision = Skip | RemoveKey(reason: string) | RotateKey

  /**
   * The decision in the `toastr.error` override: nothing unless a key is active
   * and switching is on; then removal when the leftmost status code is one of
   * the removal codes or the message names one of the removal words; rotation
   * otherwise. The title is never looked at.
   */
  function Decide(currentKey: string, switchingEnabled: bool, message: string, embedded: Option<string>): (d: Decision)
    ensures d.Skip? <==> currentKey == "" || !switchingEnabled
    ensures d.RemoveKey? <==> (currentKey != "" && switchingEnabled &&
      ((exists i :: IsLeftmostCodeAt(message, i) && CodeValueAt(message, i) in RemovalCodes) ||
       (exists k, i :: 0 <= k < |RemovalWords| && OccursAt(message, RemovalWords[k], i))))
    ensures d.RemoveKey? ==> d.reason == BuildReason(StatusCode(message), message, embedded)
  {
    if currentKey == "" || !switchingEnabled then Skip
    else
      var code := StatusCode(message);
      var byCode := code.Some? && code.value != 0 && code.value in RemovalCodes;
      LeftmostIsUnique(message);
      if byCode || HasRemovalWord(message) then RemoveKey(BuildReason(code, message, embedded))
      else RotateKey
  }

  lemma LeftmostIsUnique(s: string)
    ensures forall i, j :: IsLeftmostCodeAt(s, i) && IsLeftmostCodeAt(s, j) ==> i == j
  {
  }
}
