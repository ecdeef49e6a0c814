/**
 * Per-provider preferences that map an HTTP status code (as its decimal text)
 * to the action to take: rotate the key, remove it, or nothing.
 */
module ErrorPrefs {

  import opened Wrappers
  import Seqs
  import Decimal

  datatype Action = Rotate | Remove | NoAction

  /** The stored spelling of each action. */
  function ActionName(a: Action): string {
    match a
    case Rotate => "rotate"
    case Remove => "remove"
    case NoAction => "none"
  }

  /** The three values a preference may hold; anything else is repaired to "none". */
  predicate IsValidValue(v: string) {
    v == "rotate" || v == "remove" || v == "none"
  }

  datatype Provider = OpenRouter | Anthropic | OpenAI | Gemini | DeepSeek | Xai

  /** The status codes each provider's error table describes, in `for…in` order (ascending). */
  function ProviderStatuses(p: Provider): seq<nat> {
    match p
    case Anthropic => [400, 401, 403, 404, 413, 429, 500]
    case OpenAI => [401, 403, 429, 500, 503]
    case Gemini => [400, 403, 404, 429, 500, 503, 504]
    case DeepSeek => [401, 429, 500, 503]
    case Xai => [400, 401, 403, 404, 405, 415, 422, 429]
    case OpenRouter => [401, 402, 429]
  }

  /** Each table holds 4xx and 5xx statuses in strictly ascending order. */
  lemma ProviderStatusesAscending(p: Provider)
    ensures var ns := ProviderStatuses(p);
      (forall i :: 0 <= i < |ns| ==> 400 <= ns[i] < 600) &&
      (forall i, j :: 0 <= i < j < |ns| ==> ns[i] < ns[j])
  {
    match p
    case Anthropic =>
    case OpenAI =>
    case Gemini =>
    case DeepSeek =>
    case Xai =>
    case OpenRouter =>
  }

  /** The table's keys: each status written out in decimal, as the object literal spells it. */
  function ProviderCodes(p: Provider): (codes: seq<string>)
    ensures |codes| == |ProviderStatuses(p)|
  {
    var ns := ProviderStatuses(p);
    seq(|ns|, i requires 0 <= i < |ns| => Decimal.DecimalString(ns[i]))
  }

  /**
   * Every provider's table lists three-digit 4xx or 5xx codes in ascending
   * order, each spelt as `String(code)` spells it, so looking a status code up
   * by its decimal text finds the table entry.
   */
  lemma ProviderCodesWellFormed(p: Provider)
    ensures var codes := ProviderCodes(p);
      (forall i :: 0 <= i < |codes| ==>
         |codes[i]| == 3 && Decimal.AllDigits(codes[i]) && 400 <= Decimal.DigitsValue(codes[i]) < 600 &&
         Decimal.DecimalString(Decimal.DigitsValue(codes[i])) == codes[i]) &&
      (forall i, j :: 0 <= i < j < |codes| ==> Decimal.DigitsValue(codes[i]) < Decimal.DigitsValue(codes[j]))
  {
    var ns := ProviderStatuses(p);
    var codes := ProviderCodes(p);
    ProviderStatusesAscending(p);
    forall i | 0 <= i < |codes|
      ensures |codes[i]| == 3 && Decimal.DigitsValue(codes[i]) == ns[i]
    {
      Decimal.ThreeDigitString(ns[i]);
    }
  }

  /**
   * The preferences `loadErrorCodePrefs` returns. `stored` is `None` when
   * nothing is stored, when it does not parse, or when it is not an object;
   * every provider code then gets "none". A provider code keeps a valid stored
   * value and gets "none" otherwise; every other stored entry is kept as it is.
   */
  function NormalizedPrefs(stored: Option<map<string, string>>, codes: seq<string>): (prefs: map<string, string>)
    ensures var base := stored.GetOr(map[]);
      prefs.Keys == base.Keys + (set c | c in codes) &&
      (forall c :: c in codes ==> IsValidValue(prefs[c])) &&
      (forall c :: c in codes && c in base && IsValidValue(base[c]) ==> prefs[c] == base[c]) &&
      (forall c :: c in codes && !(c in base && IsValidValue(base[c])) ==> prefs[c] == "none") &&
      (forall k :: k in base && k !in codes ==> prefs[k] == base[k])
  {
    var base := stored.GetOr(map[]);
    map k | k in base.Keys + (set c | c in codes) ::
      if k in codes && !(k in base && IsValidValue(base[k])) then "none" else base[k]
  }

  /** Saving the repaired preferences and loading them again changes nothing. */
  lemma NormalizedPrefsIdempotent(stored: Option<map<string, string>>, codes: seq<string>)
    ensures var prefs := NormalizedPrefs(stored, codes);
      NormalizedPrefs(Some(prefs), codes) == prefs
  {
  }

  /**
   * What the repair loop knows after the first `i` codes: the keys are the
   * stored ones plus those codes, entries not among those codes are as stored,
   * and those codes already hold their repaired values.
   */
  ghost predicate RepairedUpTo(stored: Option<map<string, string>>, codes: seq<string>, i: int, prefs: map<string, string>)
    requires 0 <= i <= |codes|
  {
    var base := stored.GetOr(map[]);
    (forall k :: k in prefs <==> k in base || k in codes[..i]) &&
    (forall k :: k in prefs && k !in codes[..i] ==> prefs[k] == base[k]) &&
    (forall c :: c in codes[..i] ==> c in prefs && prefs[c] == NormalizedPrefs(stored, codes)[c])
  }

  /** One pass of the repair loop keeps `RepairedUpTo` for one more code. */
  lemma RepairStep(stored: Option<map<string, string>>, codes: seq<string>, i: int, prev: map<string, string>, prefs: map<string, string>)
    requires 0 <= i < |codes| && RepairedUpTo(stored, codes, i, prev)
    requires prefs == if codes[i] !in prev || !IsValidValue(prev[codes[i]]) then prev[codes[i] := "none"] else prev
    ensures RepairedUpTo(stored, codes, i + 1, prefs)
  {
    var base := stored.GetOr(map[]);
    var target := NormalizedPrefs(stored, codes);
    var code := codes[i];
    Seqs.TakeOneMore(codes, i);
    assert prefs[code] == target[code] by {
      if code !in codes[..i] && code in prev {
        assert prev[code] == base[code];
      }
    }
    forall c | c in codes[..i + 1] ensures c in prefs && prefs[c] == target[c] {
      if c != code {
        assert c in codes[..i];
      }
    }
  }

  /** `loadErrorCodePrefs`: the loop over the provider's codes that repairs the parsed object in place. */
  method LoadErrorCodePrefs(stored: Option<map<string, string>>, codes: seq<string>) returns (prefs: map<string, string>)
    ensures prefs == NormalizedPrefs(stored, codes)
  {
    prefs := stored.GetOr(map[]);
    var i := 0;
    while i < |codes|
      invariant 0 <= i <= |codes|
      invariant RepairedUpTo(stored, codes, i, prefs)
    {
      var code := codes[i];
      ghost var prev := prefs;
      if code !in prefs || !IsValidValue(prefs[code]) {
        prefs := prefs[code := "none"];
      }
      RepairStep(stored, codes, i, prev, prefs);
      i := i + 1;
    }
    assert codes[..i] == codes;
    assert prefs.Keys == NormalizedPrefs(stored, codes).Keys;
  }


  /**
   * `getErrorCodeAction`: the action configured for `statusCode`, looked up
   * under its decimal text in the repaired preferences; no code means no action.
   */
  function ActionFor(stored: Option<map<string, string>>, codes: seq<string>, statusCode: Option<nat>): (a: Action)
    ensures statusCode.None? ==> a == NoAction
    ensures statusCode.Some? ==>
      var key := Decimal.DecimalString(statusCode.value);
      var base := stored.GetOr(map[]);
      (a == Rotate <==> key in base && base[key] == "rotate") &&
      (a == Remove <==> key in base && base[key] == "remove")
  {
    match statusCode
    case None => NoAction
    case Some(code) =>
      var prefs := NormalizedPrefs(stored, codes);
      var key := Decimal.DecimalString(code);
      if key in prefs && prefs[key] == "rotate" then Rotate
      else if key in prefs && prefs[key] == "remove" then Remove
      else NoAction
  }

  /**
   * The checkbox handler: reload the preferences, set the clicked code to the
   * checkbox's action when it is checked and to "none" when it is cleared, and save.
   */
  function CheckboxPrefs(stored: Option<map<string, string>>, codes: seq<string>, code: string, action: Action, checked: bool): (prefs: map<string, string>)
    requires action != NoAction
    ensures prefs.Keys == NormalizedPrefs(stored, codes).Keys + {code}
    ensures prefs[code] == if checked then ActionName(action) else "none"
    ensures forall k :: k in prefs && k != code ==> prefs[k] == NormalizedPrefs(stored, codes)[k]
    ensures forall c :: c in codes || c == code ==> IsValidValue(prefs[c])
  {
    NormalizedPrefs(stored, codes)[code := if checked then ActionName(action) else "none"]
  }

  /**
   * After a checkbox change is saved, looking up that code gives the checked
   * action (or no action once cleared), and every other code keeps its action.
   */
  lemma CheckboxThenLookup(stored: Option<map<string, string>>, codes: seq<string>, n: nat, action: Action, checked: bool, m: nat)
    requires action != NoAction
    ensures var saved := CheckboxPrefs(stored, codes, Decimal.DecimalString(n), action, checked);
      ActionFor(Some(saved), codes, Some(m)) ==
        if m == n then (if checked then action else NoAction)
        else ActionFor(stored, codes, Some(m))
  {
  }
}
