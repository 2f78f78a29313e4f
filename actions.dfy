/**
 * The clipboard action engine: user rules (a pattern, an action type and JSON
 * parameters) are cached when their pattern compiles, and every copied text is run
 * through the enabled rules whose pattern it matches.
 *
 * Rule patterns are arbitrary regular expressions and the parameters arbitrary JSON;
 * both are parameters here: `compiles(pattern)`, `matches(pattern, text)` and
 * `decode(json)` (`None` where decoding fails). The URL scanner's own pattern is
 * fixed and is coded out. Fetching a page title runs on a worker thread; here it is
 * recorded as a scheduled fetch, and a signal emission as an emitted event.
 */
module Actions {
  import opened Wrappers
  import opened Text
  import opened History
  import opened ClipboardDatabase

  // ---------------------------------------------------------------------
  // The URL scanner: `https?://[^\s<>'"\])]+`, leftmost match
  // ---------------------------------------------------------------------

  /** A character the URL pattern's run accepts: not whitespace and none of `<>'"])`. */
  predicate UrlChar(c: char) {
    !IsSpace(c) && c != '<' && c != '>' && c != '\'' && c != '"' && c != ']' && c != ')'
  }

  /** A whole match of the URL pattern: a scheme prefix followed by a non-empty run of URL characters. */
  predicate IsUrl(u: string) {
    || (StartsWith(u, "https://") && |u| > 8 && forall k :: 8 <= k < |u| ==> UrlChar(u[k]))
    || (StartsWith(u, "http://") && |u| > 7 && forall k :: 7 <= k < |u| ==> UrlChar(u[k]))
  }

  /** The `n` characters of `s` from index `p` match the URL pattern. */
  predicate UrlAt(s: string, p: int, n: int) {
    0 <= p && 0 <= n && p + n <= |s| && IsUrl(s[p..p + n])
  }

  /** A match at `p` that the following character cannot extend. */
  predicate MaximalUrlAt(s: string, p: int, n: int) {
    UrlAt(s, p, n) && (p + n == |s| || !UrlChar(s[p + n]))
  }

  /** The length of the longest run of URL characters of `s` from index `i`. */
  function RunLength(s: string, i: nat): (n: nat)
    requires i <= |s|
    ensures i + n <= |s|
    ensures forall k :: i <= k < i + n ==> UrlChar(s[k])
    ensures i + n == |s| || !UrlChar(s[i + n])
    decreases |s| - i
  {
    if i < |s| && UrlChar(s[i]) then 1 + RunLength(s, i + 1) else 0
  }

  /** The scheme prefix at `p`: 8 for `https://`, 7 for `http://`, 0 for neither. */
  function SchemeAt(s: string, p: nat): nat {
    if OccursAt(s, "https://", p) then 8 else if OccursAt(s, "http://", p) then 7 else 0
  }

  /** The length of the match starting at `p`, trying `https://` before `http://` as the greedy `s?` does. */
  function MatchAt(s: string, p: nat): Option<nat>
    requires p <= |s|
  {
    var scheme := SchemeAt(s, p);
    if scheme > 0 && RunLength(s, p + scheme) > 0 then Some(scheme + RunLength(s, p + scheme)) else None
  }

  /** The first index at or after `p` where a match starts, with the match's length. */
  function FirstMatchFrom(s: string, p: nat): (m: Option<(nat, nat)>)
    requires p <= |s|
    ensures m.Some? ==> p <= m.value.0 <= |s| && MatchAt(s, m.value.0) == Some(m.value.1)
    ensures m.Some? ==> forall q :: p <= q < m.value.0 ==> MatchAt(s, q).None?
    ensures m.None? ==> forall q :: p <= q <= |s| ==> MatchAt(s, q).None?
    decreases |s| - p
  {
    if MatchAt(s, p).Some? then Some((p, MatchAt(s, p).value))
    else if p == |s| then None
    else FirstMatchFrom(s, p + 1)
  }

  /** `extract_first_url`: nothing for empty text, else the leftmost match of the URL pattern. */
  function ExtractFirstUrl(text: string): (url: Option<string>) {
    if text == [] then None
    else match FirstMatchFrom(text, 0)
      case None => None
      case Some((p, n)) => Some(text[p..p + n])
  }

  /** The match the scanner finds at `p` is a maximal match of the URL pattern. */
  lemma {:induction false} MatchAtSound(s: string, p: nat)
    requires p <= |s| && MatchAt(s, p).Some?
    ensures MaximalUrlAt(s, p, MatchAt(s, p).value)
  {
    var scheme := SchemeAt(s, p);
    var n := MatchAt(s, p).value;
    var u := s[p..p + n];
    assert u[..scheme] == s[p..p + scheme];
    forall k | scheme <= k < |u| ensures UrlChar(u[k]) {
      assert u[k] == s[p + k];
    }
  }

  /** Wherever the URL pattern matches some text starting at `p`, the scanner finds a match at `p`. */
  lemma {:induction false} MatchAtComplete(s: string, p: int, m: int)
    requires UrlAt(s, p, m)
    ensures MatchAt(s, p).Some?
  {
    var u := s[p..p + m];
    if StartsWith(u, "https://") && |u| > 8 && forall k :: 8 <= k < |u| ==> UrlChar(u[k]) {
      assert s[p..p + 8] == u[..8];
      assert s[p + 8] == u[8];
    } else {
      assert s[p..p + 7] == u[..7];
      assert s[p + 4] == u[4] == ':';
      assert !OccursAt(s, "https://", p);
      assert s[p + 7] == u[7];
    }
  }

  /** Where the scanner finds no match before `p`, the URL pattern matches nothing starting before `p`. */
  lemma {:induction false} NoUrlBefore(text: string, p: int)
    requires forall q :: 0 <= q < p && q <= |text| ==> MatchAt(text, q).None?
    ensures forall q, m :: q < p ==> !UrlAt(text, q, m)
  {
    forall q, m | q < p ensures !UrlAt(text, q, m) {
      if UrlAt(text, q, m) {
        MatchAtComplete(text, q, m);
      }
    }
  }

  /** `extract_first_url` finds nothing exactly when the URL pattern matches nowhere in the text. */
  lemma {:induction false} ExtractFirstUrlNone(text: string)
    ensures ExtractFirstUrl(text).None? <==> forall p, n :: !UrlAt(text, p, n)
  {
    var first := FirstMatchFrom(text, 0);
    if first.None? {
      NoUrlBefore(text, |text| + 1);
    } else {
      var p := first.value.0;
      MatchAtSound(text, p);
      assert UrlAt(text, p, first.value.1);
    }
  }

  /**
   * What `extract_first_url` finds is the leftmost match of the URL pattern, extended
   * as far as the URL characters go.
   */
  lemma {:induction false} ExtractFirstUrlLeftmost(text: string)
    requires ExtractFirstUrl(text).Some?
    ensures var u := ExtractFirstUrl(text).value;
      exists p :: MaximalUrlAt(text, p, |u|) && text[p..p + |u|] == u
        && forall q, m :: q < p ==> !UrlAt(text, q, m)
  {
    var first := FirstMatchFrom(text, 0);
    var p, n := first.value.0, first.value.1;
    var u := text[p..p + n];
    assert ExtractFirstUrl(text) == Some(u);
    MatchAtSound(text, p);
    NoUrlBefore(text, p);
    assert MaximalUrlAt(text, p, |u|) && text[p..p + |u|] == u;
  }

  // ---------------------------------------------------------------------
  // Rules, parameters, results
  // ---------------------------------------------------------------------

  /** A row of the rule table; a missing parameter text is "". */
  datatype Rule = Rule(id: int, name: string, pattern: string, actionType: string,
                       paramsJson: string, enabled: int, priority: int)

  /** Decoded parameters: an object (its text-valued members) or any other JSON value. */
  datatype Json = JObject(members: map<string, string>) | JOther

  /** What a rule produces. */
  datatype ActionResult =
    | Notify(message: string)
    | Formatted(original: string, formatted: string)
    | Transformed(result: string)
    | TitleFound(title: string)

  /** A result under the name of the rule that produced it. */
  datatype Named = Named(name: string, result: ActionResult)

  /** What happens outside the returned results: a title fetch handed to a worker, or a signal emitted at once. */
  datatype Effect =
    | ScheduleFetch(url: string, itemId: Option<int>, name: string)
    | Emit(name: string, event: ActionResult)

  /** An action's outcome: the value it returned, or an exception it raised. */
  datatype Outcome = Returned(value: Option<ActionResult>) | Raised

  const NO_URL_MESSAGE: string := "URL을 찾지 못해 제목 가져오기를 건너뛰었습니다."
  const NO_WEB_MESSAGE: string := "웹 요청 라이브러리가 없어 URL 제목을 가져올 수 없습니다."
  const TITLE_FAILED_MESSAGE: string := "URL 제목을 가져오지 못했습니다."
  const DEFAULT_NOTIFY_MESSAGE: string := "패턴 매칭됨"

  /** `params.get(key, default)` on an object. */
  function Get(members: map<string, string>, key: string, default: string): string {
    if key in members then members[key] else default
  }

  /** The parameters of a rule: `{}` for empty text or text that does not decode, else what it decodes to. */
  function ParamsOf(json: string, decode: string -> Option<Json>): (params: Json)
    ensures json == [] || decode(json).None? ==> params == JObject(map[])
  {
    if json == [] then JObject(map[])
    else match decode(json)
      case None => JObject(map[])
      case Some(v) => v
  }

  // ---------------------------------------------------------------------
  // The synchronous actions
  // ---------------------------------------------------------------------

  /** The ASCII digits of `s`, in order (`re.sub(r"\D", "", s)`). */
  function Digits(s: string): (d: string)
    ensures |d| <= |s|
    ensures forall i :: 0 <= i < |d| ==> IsDigit(d[i])
  {
    if s == [] then []
    else (if IsDigit(s[0]) then [s[0]] else []) + Digits(s[1..])
  }

  /** A character is among the digits exactly when it is a digit of the text: no digit is lost. */
  lemma {:induction false} DigitsIff(s: string)
    ensures forall c :: c in Digits(s) <==> c in s && IsDigit(c)
  {
    if s != [] {
      DigitsIff(s[1..]);
      assert s == [s[0]] + s[1..];
    }
  }

  /** The digits of a concatenation are the digits of each part in turn, so their order is kept. */
  lemma {:induction false} DigitsAppend(a: string, b: string)
    ensures Digits(a + b) == Digits(a) + Digits(b)
  {
    if a == [] {
      assert a + b == b;
    } else {
      assert (a + b)[0] == a[0];
      assert (a + b)[1..] == a[1..] + b;
      DigitsAppend(a[1..], b);
    }
  }

  /** A string without its dashes. */
  function WithoutDashes(s: string): (r: string)
    ensures |r| <= |s|
  {
    if s == [] then []
    else (if s[0] == '-' then [] else [s[0]]) + WithoutDashes(s[1..])
  }

  lemma {:induction false} WithoutDashesAppend(a: string, b: string)
    ensures WithoutDashes(a + b) == WithoutDashes(a) + WithoutDashes(b)
  {
    if a == [] {
      assert a + b == b;
    } else {
      assert (a + b)[0] == a[0];
      assert (a + b)[1..] == a[1..] + b;
      WithoutDashesAppend(a[1..], b);
    }
  }

  lemma {:induction false} WithoutDashesOfDigits(d: string)
    requires forall i :: 0 <= i < |d| ==> IsDigit(d[i])
    ensures WithoutDashes(d) == d
  {
    if d != [] {
      WithoutDashesOfDigits(d[1..]);
      assert [d[0]] + d[1..] == d;
    }
  }

  /** Three digit groups joined by dashes lose exactly the dashes. */
  lemma {:induction false} WithoutDashesOfGroups(x: string, y: string, z: string)
    requires forall i :: 0 <= i < |x| ==> IsDigit(x[i])
    requires forall i :: 0 <= i < |y| ==> IsDigit(y[i])
    requires forall i :: 0 <= i < |z| ==> IsDigit(z[i])
    ensures WithoutDashes(x + "-" + y + "-" + z) == x + y + z
  {
    var dash := "-";
    assert WithoutDashes(dash) == [] by {
      assert dash[1..] == [];
    }
    WithoutDashesOfDigits(x);
    WithoutDashesOfDigits(y);
    WithoutDashesOfDigits(z);
    WithoutDashesAppend(x, dash);
    WithoutDashesAppend(x + dash, y);
    WithoutDashesAppend(x + dash + y, dash);
    WithoutDashesAppend(x + dash + y + dash, z);
    assert x + [] == x;
    assert x + y + [] == x + y;
  }

  /** The phone layout of a digit string: `010` mobile numbers as 3-4-4, ten digits as 3-3-4, else none. */
  function PhoneLayout(d: string): (f: Option<string>) {
    if |d| == 11 && StartsWith(d, "010") then Some(d[..3] + "-" + d[3..7] + "-" + d[7..])
    else if |d| == 10 then Some(d[..3] + "-" + d[3..6] + "-" + d[6..])
    else None
  }

  /** `format_phone`: the text's digits laid out as a phone number, or nothing. */
  function FormatPhone(text: string): Option<ActionResult> {
    match PhoneLayout(Digits(text))
    case None => None
    case Some(f) => Some(Formatted(text, f))
  }

  /**
   * A phone number is formatted exactly when the text holds eleven digits starting
   * `010` or ten digits; the formatted text keeps the original, has two dashes after
   * the third digit and after the seventh (mobile) or sixth digit, and without its
   * dashes is the digit string.
   */
  lemma {:induction false} FormatPhoneSpec(text: string)
    ensures var d := Digits(text);
      FormatPhone(text).Some? <==> (|d| == 11 && StartsWith(d, "010")) || |d| == 10
    ensures FormatPhone(text).Some? ==>
      var d, r := Digits(text), FormatPhone(text).value;
      && r.Formatted? && r.original == text
      && WithoutDashes(r.formatted) == d
      && |r.formatted| == |d| + 2
      && r.formatted[3] == '-' && r.formatted[if |d| == 11 then 8 else 7] == '-'
  {
    var d := Digits(text);
    if PhoneLayout(d).Some? {
      var cut := if |d| == 11 then 7 else 6;
      var f := d[..3] + "-" + d[3..cut] + "-" + d[cut..];
      assert PhoneLayout(d) == Some(f);
      WithoutDashesOfGroups(d[..3], d[3..cut], d[cut..]);
      assert d[..3] + d[3..cut] + d[cut..] == d;
    }
  }

  /** `format_email`: the text stripped and lower-cased. */
  function FormatEmail(text: string): ActionResult {
    Formatted(text, Lower(Strip(text)))
  }

  /** Lower-casing maps no character to or from whitespace, so it keeps a string stripped. */
  lemma {:induction false} LowerKeepsStripped(s: string)
    requires IsStripped(s)
    ensures IsStripped(Lower(s))
  {
  }

  /** Formatting an address that was already formatted changes nothing. */
  lemma {:induction false} FormatEmailIdempotent(text: string)
    ensures FormatEmail(FormatEmail(text).formatted).formatted == FormatEmail(text).formatted
  {
    var s := Strip(text);
    StripIsStrippedInfix(text);
    LowerKeepsStripped(s);
    StripOfStripped(Lower(s));
    LowerIdempotent(s);
  }

  /** `transform_text`: strip, upper-case or lower-case by mode; no result for another mode. */
  function TransformText(text: string, mode: string): Option<ActionResult> {
    if mode == "trim" then Some(Transformed(Strip(text)))
    else if mode == "upper" then Some(Transformed(Upper(text)))
    else if mode == "lower" then Some(Transformed(Lower(text)))
    else None
  }

  /** Each transform applied to its own result changes nothing more. */
  lemma {:induction false} TransformIdempotent(text: string, mode: string)
    requires TransformText(text, mode).Some?
    ensures var r := TransformText(text, mode).value.result;
      TransformText(r, mode) == Some(Transformed(r))
  {
    if mode == "trim" {
      StripIsStrippedInfix(text);
      StripOfStripped(Strip(text));
    } else if mode == "upper" {
      var u := Upper(text);
      assert Upper(u) == u;
    } else {
      LowerIdempotent(text);
    }
  }

  /**
   * `execute_action`: dispatch on the action type. Reading a parameter of something
   * that is not a JSON object raises; that can only happen to `notify` and `transform`.
   */
  function ExecuteAction(actionType: string, text: string, params: Json): (o: Outcome)
    ensures o.Raised? <==> (actionType == "notify" || actionType == "transform") && params.JOther?
    ensures actionType !in ["format_phone", "format_email", "notify", "transform"] ==> o == Returned(None)
  {
    if actionType == "fetch_title" then Returned(None)
    else if actionType == "format_phone" then Returned(FormatPhone(text))
    else if actionType == "format_email" then Returned(Some(FormatEmail(text)))
    else if actionType == "notify" then
      (match params
       case JOther => Raised
       case JObject(m) => Returned(Some(Notify(Get(m, "message", DEFAULT_NOTIFY_MESSAGE)))))
    else if actionType == "transform" then
      (match params
       case JOther => Raised
       case JObject(m) => Returned(TransformText(text, Get(m, "mode", "trim"))))
    else Returned(None)
  }

  /** Parameters that are missing or do not decode read as `{}`: the action runs with its defaults and never raises. */
  lemma {:induction false} MalformedParamsUseDefaults(actionType: string, text: string, json: string, decode: string -> Option<Json>)
    requires json == [] || decode(json).None?
    ensures ExecuteAction(actionType, text, ParamsOf(json, decode)).Returned?
    ensures actionType == "notify" ==>
      ExecuteAction(actionType, text, ParamsOf(json, decode)) == Returned(Some(Notify(DEFAULT_NOTIFY_MESSAGE)))
    ensures actionType == "transform" ==>
      ExecuteAction(actionType, text, ParamsOf(json, decode)) == Returned(Some(Transformed(Strip(text))))
  {
  }

  // ---------------------------------------------------------------------
  // Processing a text
  // ---------------------------------------------------------------------

  /** The rules the cache keeps: those with a non-empty pattern that compiles, in the order given. */
  function Compiled(rows: seq<Rule>, compiles: string -> bool): (cache: seq<Rule>)
    ensures |cache| <= |rows|
  {
    if rows == [] then []
    else
      var last := rows[|rows| - 1];
      Compiled(rows[..|rows| - 1], compiles) + (if last.pattern != [] && compiles(last.pattern) then [last] else [])
  }

  /** The cache holds exactly the rules with a non-empty, compiling pattern. */
  lemma {:induction false} CompiledIff(rows: seq<Rule>, compiles: string -> bool, r: Rule)
    ensures r in Compiled(rows, compiles) <==> r in rows && r.pattern != [] && compiles(r.pattern)
  {
    if rows != [] {
      var init := rows[..|rows| - 1];
      CompiledIff(init, compiles, r);
      assert rows == init + [rows[|rows| - 1]];
    }
  }

  /** Compiling keeps the rules' order: the cache of two lists one after the other is the two caches one after the other. */
  lemma {:induction false} CompiledAppend(a: seq<Rule>, b: seq<Rule>, compiles: string -> bool)
    ensures Compiled(a + b, compiles) == Compiled(a, compiles) + Compiled(b, compiles)
    decreases |b|
  {
    if b == [] {
      assert a + b == a;
    } else {
      var init := b[..|b| - 1];
      assert (a + b)[..|a + b| - 1] == a + init;
      CompiledAppend(a, init, compiles);
    }
  }

  /** The results and effects of processing, in order. */
  datatype Emitted = Emitted(results: seq<Named>, effects: seq<Effect>)

  function Then(x: Emitted, y: Emitted): Emitted {
    Emitted(x.results + y.results, x.effects + y.effects)
  }

  /** A rule fires on a text when it is enabled and its pattern matches. */
  predicate Fires(r: Rule, text: string, matches: (string, string) -> bool) {
    r.enabled != 0 && matches(r.pattern, text)
  }

  /**
   * What one rule contributes: nothing unless it fires; for `fetch_title`, a notice when
   * the text holds no URL, else a fetch of its first URL (or, without the web libraries,
   * a notice emitted at once); for another type, the action's result when it returns one.
   */
  function StepOf(r: Rule, text: string, itemId: Option<int>, hasWeb: bool,
                  matches: (string, string) -> bool, decode: string -> Option<Json>): (e: Emitted)
    ensures |e.results| + |e.effects| <= 1
    ensures !Fires(r, text, matches) ==> e == Emitted([], [])
    ensures forall x :: x in e.results ==> x.name == r.name
    ensures forall x :: x in e.effects ==> x.name == r.name
  {
    if !Fires(r, text, matches) then Emitted([], [])
    else if r.actionType == "fetch_title" then
      match ExtractFirstUrl(text)
      case None => Emitted([Named(r.name, Notify(NO_URL_MESSAGE))], [])
      case Some(url) =>
        Emitted([], [if hasWeb then ScheduleFetch(url, itemId, r.name) else Emit(r.name, Notify(NO_WEB_MESSAGE))])
    else
      match ExecuteAction(r.actionType, text, ParamsOf(r.paramsJson, decode))
      case Returned(Some(v)) => Emitted([Named(r.name, v)], [])
      case _ => Emitted([], [])
  }

  /** What processing a text through the cache produces: each rule's contribution in cache order. */
  function Processed(rules: seq<Rule>, text: string, itemId: Option<int>, hasWeb: bool,
                     matches: (string, string) -> bool, decode: string -> Option<Json>): Emitted
  {
    if rules == [] then Emitted([], [])
    else Then(Processed(rules[..|rules| - 1], text, itemId, hasWeb, matches, decode),
              StepOf(rules[|rules| - 1], text, itemId, hasWeb, matches, decode))
  }

  /** Processing one more rule of a list adds that rule's contribution after the others'. */
  lemma {:induction false} ProcessedStep(rules: seq<Rule>, i: nat, text: string, itemId: Option<int>, hasWeb: bool,
                                         matches: (string, string) -> bool, decode: string -> Option<Json>)
    requires i < |rules|
    ensures Processed(rules[..i + 1], text, itemId, hasWeb, matches, decode)
         == Then(Processed(rules[..i], text, itemId, hasWeb, matches, decode), StepOf(rules[i], text, itemId, hasWeb, matches, decode))
  {
    assert rules[..i + 1][..i] == rules[..i];
    assert rules[..i + 1][i] == rules[i];
  }

  /**
   * Rules act independently: processing two lists one after the other gives the two
   * outcomes one after the other, so a rule that raises or yields nothing leaves the
   * later rules' results as they would be without it.
   */
  lemma {:induction false} ProcessedAppend(a: seq<Rule>, b: seq<Rule>, text: string, itemId: Option<int>, hasWeb: bool,
                                           matches: (string, string) -> bool, decode: string -> Option<Json>)
    ensures Processed(a + b, text, itemId, hasWeb, matches, decode)
         == Then(Processed(a, text, itemId, hasWeb, matches, decode), Processed(b, text, itemId, hasWeb, matches, decode))
    decreases |b|
  {
    if b == [] {
      assert a + b == a;
      var p := Processed(a, text, itemId, hasWeb, matches, decode);
      assert p.results + [] == p.results && p.effects + [] == p.effects;
    } else {
      var init := b[..|b| - 1];
      assert (a + b)[..|a + b| - 1] == a + init;
      assert (a + b)[|a + b| - 1] == b[|b| - 1];
      ProcessedAppend(a, init, text, itemId, hasWeb, matches, decode);
      var x := Processed(a, text, itemId, hasWeb, matches, decode);
      var y := Processed(init, text, itemId, hasWeb, matches, decode);
      var z := StepOf(b[|b| - 1], text, itemId, hasWeb, matches, decode);
      assert x.results + y.results + z.results == x.results + (y.results + z.results);
      assert x.effects + y.effects + z.effects == x.effects + (y.effects + z.effects);
    }
  }

  /**
   * Every result and every effect carries the name of a rule of the cache that fires
   * on the text, and each rule contributes at most one of them.
   */
  lemma {:induction false} ProcessedFromFiringRules(rules: seq<Rule>, text: string, itemId: Option<int>, hasWeb: bool,
                                                    matches: (string, string) -> bool, decode: string -> Option<Json>)
    ensures var e := Processed(rules, text, itemId, hasWeb, matches, decode);
      && |e.results| + |e.effects| <= |rules|
      && (forall x :: x in e.results ==> exists r :: r in rules && Fires(r, text, matches) && r.name == x.name)
      && (forall x :: x in e.effects ==> exists r :: r in rules && Fires(r, text, matches) && r.name == x.name)
  {
    if rules != [] {
      var init, last := rules[..|rules| - 1], rules[|rules| - 1];
      ProcessedFromFiringRules(init, text, itemId, hasWeb, matches, decode);
      var e := Processed(rules, text, itemId, hasWeb, matches, decode);
      var p := Processed(init, text, itemId, hasWeb, matches, decode);
      var s := StepOf(last, text, itemId, hasWeb, matches, decode);
      forall x | x in e.results ensures exists r :: r in rules && Fires(r, text, matches) && r.name == x.name {
        if x in p.results {
          var r :| r in init && Fires(r, text, matches) && r.name == x.name;
          assert r in rules;
        } else {
          assert x in s.results;
          assert last in rules;
        }
      }
      forall x | x in e.effects ensures exists r :: r in rules && Fires(r, text, matches) && r.name == x.name {
        if x in p.effects {
          var r :| r in init && Fires(r, text, matches) && r.name == x.name;
          assert r in rules;
        } else {
          assert x in s.effects;
          assert last in rules;
        }
      }
    }
  }

  /**
   * The converse: a rule of the cache that fires, is not `fetch_title` and whose
   * action returns a result puts that result, under the rule's name, in the output.
   */
  lemma {:induction false} ProcessedCollects(rules: seq<Rule>, i: nat, text: string, itemId: Option<int>, hasWeb: bool,
                                             matches: (string, string) -> bool, decode: string -> Option<Json>, v: ActionResult)
    requires i < |rules| && Fires(rules[i], text, matches) && rules[i].actionType != "fetch_title"
    requires ExecuteAction(rules[i].actionType, text, ParamsOf(rules[i].paramsJson, decode)) == Returned(Some(v))
    ensures Named(rules[i].name, v) in Processed(rules, text, itemId, hasWeb, matches, decode).results
  {
    assert rules == rules[..i + 1] + rules[i + 1..];
    ProcessedAppend(rules[..i + 1], rules[i + 1..], text, itemId, hasWeb, matches, decode);
    ProcessedStep(rules, i, text, itemId, hasWeb, matches, decode);
  }

  /** A `fetch_title` rule that fires: a notice when the text has no URL, else one fetch of the first URL, never both. */
  lemma {:induction false} FetchTitleOutcome(r: Rule, text: string, itemId: Option<int>, hasWeb: bool,
                          matches: (string, string) -> bool, decode: string -> Option<Json>)
    requires Fires(r, text, matches) && r.actionType == "fetch_title"
    ensures var e := Processed([r], text, itemId, hasWeb, matches, decode);
      && (ExtractFirstUrl(text).None? ==> e == Emitted([Named(r.name, Notify(NO_URL_MESSAGE))], []))
      && (ExtractFirstUrl(text).Some? && hasWeb ==>
            e == Emitted([], [ScheduleFetch(ExtractFirstUrl(text).value, itemId, r.name)]))
      && (ExtractFirstUrl(text).Some? && !hasWeb ==> e == Emitted([], [Emit(r.name, Notify(NO_WEB_MESSAGE))]))
  {
    assert [r][..0] == [];
  }

  // ---------------------------------------------------------------------
  // The title of a fetched page
  // ---------------------------------------------------------------------

  /** Python truthiness of the fetched title and of the item id. */
  predicate TitleTruthy(title: Option<string>) { title.Some? && title.value != [] }
  predicate IdTruthy(itemId: Option<int>) { itemId.Some? && itemId.value != 0 }

  /** The decision on a fetch result: store the title on the item when both are set, with the event to emit. */
  function TitleDecision(name: string, title: Option<string>, itemId: Option<int>): (d: (Option<(int, string)>, Effect))
    ensures d.0.Some? <==> TitleTruthy(title) && IdTruthy(itemId)
    ensures d.0.Some? ==> d.0.value == (itemId.value, title.value) && d.1 == Emit(name, TitleFound(title.value))
    ensures d.0.None? ==> d.1 == Emit(name, Notify(TITLE_FAILED_MESSAGE))
  {
    if TitleTruthy(title) && IdTruthy(itemId) then (Some((itemId.value, title.value)), Emit(name, TitleFound(title.value)))
    else (None, Emit(name, Notify(TITLE_FAILED_MESSAGE)))
  }

  // ---------------------------------------------------------------------
  // The manager
  // ---------------------------------------------------------------------

  class ActionManager {
    /** The store the rules come from and titles go to. */
    const db: ClipboardDB
    /** Whether the web libraries could be imported. */
    const hasWeb: bool
    /** `actions_cache`: the rules whose pattern compiled. */
    var cache: seq<Rule>

    /** A manager over the store, with the cache built from the store's rules. */
    constructor (db: ClipboardDB, rows: seq<Rule>, compiles: string -> bool, hasWeb: bool)
      ensures this.db == db && this.hasWeb == hasWeb
      ensures cache == Compiled(rows, compiles)
    {
      this.db := db;
      this.hasWeb := hasWeb;
      cache := [];
      new;
      ReloadActions(rows, compiles);
    }

    /** `reload_actions`: rebuild the cache from the store's rules, skipping empty and invalid patterns. */
    method ReloadActions(rows: seq<Rule>, compiles: string -> bool)
      modifies this
      ensures cache == Compiled(rows, compiles)
    {
      cache := [];
      var i := 0;
      while i < |rows|
        invariant 0 <= i <= |rows|
        invariant cache == Compiled(rows[..i], compiles)
      {
        var r := rows[i];
        assert rows[..i + 1][..i] == rows[..i];
        if r.pattern != [] && compiles(r.pattern) {
          cache := cache + [r];
        }
        i := i + 1;
      }
      assert rows[..i] == rows;
    }

    /** `process`: run the text through every cached rule in order, collecting results and effects. */
    method Process(text: string, itemId: Option<int>, matches: (string, string) -> bool, decode: string -> Option<Json>)
      returns (results: seq<Named>, effects: seq<Effect>)
      ensures Emitted(results, effects) == Processed(cache, text, itemId, hasWeb, matches, decode)
    {
      results := [];
      effects := [];
      var i := 0;
      while i < |cache|
        invariant 0 <= i <= |cache|
        invariant Emitted(results, effects) == Processed(cache[..i], text, itemId, hasWeb, matches, decode)
      {
        var r := cache[i];
        ProcessedStep(cache, i, text, itemId, hasWeb, matches, decode);
        if r.enabled != 0 && matches(r.pattern, text) {
          if r.actionType == "fetch_title" {
            var url := ExtractFirstUrl(text);
            if url.None? {
              results := results + [Named(r.name, Notify(NO_URL_MESSAGE))];
            } else if hasWeb {
              effects := effects + [ScheduleFetch(url.value, itemId, r.name)];
            } else {
              effects := effects + [Emit(r.name, Notify(NO_WEB_MESSAGE))];
            }
          } else {
            var params := ParamsOf(r.paramsJson, decode);
            var outcome := ExecuteAction(r.actionType, text, params);
            if outcome.Returned? && outcome.value.Some? {
              results := results + [Named(r.name, outcome.value.value)];
            }
          }
        }
        i := i + 1;
      }
      assert cache[..i] == cache;
    }

    /**
     * `_handle_title_result`: with both a title and an item id, store the title on the
     * item and emit it; otherwise emit a notice and leave the store alone.
     */
    method HandleTitleResult(name: string, title: Option<string>, itemId: Option<int>, fault: bool) returns (event: Effect)
      requires db.Valid()
      modifies db
      ensures db.Valid()
      ensures event == TitleDecision(name, title, itemId).1
      ensures var write := TitleDecision(name, title, itemId).0;
        db.history == if write.Some? && !fault then Edited(old(db.history), write.value.0, SetUrlTitle(write.value.1))
                      else old(db.history)
      ensures db.trash == old(db.trash) && db.collections == old(db.collections) && db.settings == old(db.settings)
      ensures db.nextId == old(db.nextId) && db.addCount == old(db.addCount)
      ensures db.nextTrashId == old(db.nextTrashId) && db.nextCollectionId == old(db.nextCollectionId)
    {
      var d := TitleDecision(name, title, itemId);
      if d.0.Some? {
        var _ := db.UpdateUrlTitle(d.0.value.0, d.0.value.1, fault);
      }
      event := d.1;
    }
  }
}
