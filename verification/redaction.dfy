/**
 * Log-line redaction of the personal-data logger (filtered_logger.py).
 *
 * `filter_datum` substitutes every match of the regular expression
 * `(f1|f2|...|fn)=.+?<sep>` in a message by `<field>=<redaction><sep>`.
 * The regular expression is modelled by an explicit left-to-right scanner:
 * at each position the alternatives are tried in the order they are listed,
 * the value is the lazy `.+?` (at least one character, never a newline, ending
 * at the first separator after its first character), and after a match the
 * scan resumes behind the consumed separator.
 */
module Redaction {
  import opened Wrappers

  /** Characters with a meaning of their own in a Python regular expression. */
  predicate IsMeta(c: char) {
    || c == '.' || c == '^' || c == '$' || c == '*' || c == '+' || c == '?' || c == '{'
    || c == '}' || c == '[' || c == ']' || c == '\\' || c == '|' || c == '(' || c == ')'
  }

  /** The separator and placeholder the redacting formatter uses. */
  const REDACTION: string := "***"
  const SEPARATOR: char := ';'

  /**
   * The default PII field tuple. A comma is missing after "ssn" in the
   * source, so Python's implicit string concatenation turns "ssn" "password"
   * into the single entry "ssnpassword".
   */
  const PII_FIELDS: seq<string> :=
    ["name", "email", "phone", "address", "ssn" + "password", "ip", "last_login", "user_agent"]

  /** The nine fields the tuple evidently lists, with the comma after "ssn" restored. */
  const INTENDED_PII_FIELDS: seq<string> :=
    ["name", "email", "phone", "address", "ssn", "password", "ip", "last_login", "user_agent"]

  predicate IsLiteral(s: string) {
    forall i :: 0 <= i < |s| ==> !IsMeta(s[i])
  }

  /**
   * The pattern built from `fields` and `separator` matches its text literally:
   * no field name and not the separator contain a metacharacter.
   */
  predicate LiteralPattern(fields: seq<string>, separator: char) {
    && (forall k :: 0 <= k < |fields| ==> IsLiteral(fields[k]))
    && !IsMeta(separator)
  }

  /**
   * The alternatives of the pattern's group in the order they are tried.
   * Joining an empty list gives the empty group `()`, which is the single
   * empty alternative.
   */
  function Alternatives(fields: seq<string>): seq<string> {
    if |fields| == 0 then [""] else fields
  }

  /**
   * `msg[i..j]` is a value that the lazy `.+?` accepts in front of the
   * separator at index `j`: at least one character, no newline, and `j` is the
   * first separator after the value's first character.
   */
  predicate ValueEndsAt(msg: string, i: nat, j: nat, sep: char) {
    && i < j < |msg|
    && msg[j] == sep
    && (forall t :: i <= t < j ==> msg[t] != '\n')
    && (forall t :: i < t < j ==> msg[t] != sep)
  }

  /** `msg[p..]` begins with the field name `f` followed by `=`. */
  predicate FieldAt(msg: string, p: nat, f: string) {
    p + |f| < |msg| && msg[p..p + |f|] == f && msg[p + |f|] == '='
  }

  /**
   * The pattern, with `f` chosen for the group, matches `msg[p..e]`:
   * `f`, `=`, a value, and the separator at index `e - 1`.
   */
  predicate SpanMatch(msg: string, p: nat, f: string, sep: char, e: nat) {
    FieldAt(msg, p, f) && e >= 1 && ValueEndsAt(msg, p + |f| + 1, e - 1, sep)
  }

  /** The number of line breaks in `s`. */
  function Newlines(s: string): nat {
    if |s| == 0 then 0 else Newlines(s[..|s| - 1]) + (if s[|s| - 1] == '\n' then 1 else 0)
  }

  lemma {:induction false} NewlinesAppend(a: string, b: string)
    ensures Newlines(a + b) == Newlines(a) + Newlines(b)
    decreases |b|
  {
    if |b| == 0 {
      assert a + b == a;
    } else {
      assert (a + b)[..|a + b| - 1] == a + b[..|b| - 1];
      NewlinesAppend(a, b[..|b| - 1]);
    }
  }

  lemma {:induction false} NoNewlines(s: string)
    requires forall t :: 0 <= t < |s| ==> s[t] != '\n'
    ensures Newlines(s) == 0
    decreases |s|
  {
    if |s| > 0 {
      NoNewlines(s[..|s| - 1]);
    }
  }

  /** No alternative of `alts` yields a match at position `p`. */
  ghost predicate Matchless(alts: seq<string>, msg: string, p: nat, sep: char) {
    forall k, e :: 0 <= k < |alts| ==> !SpanMatch(msg, p, alts[k], sep, e)
  }

  /** A match of the pattern: the index of the alternative that matched and the end of the match. */
  datatype Hit = Hit(alt: nat, end: nat)

  /** The lazy search for the separator, from index `k` on, that ends a value. */
  function SeparatorFrom(msg: string, k: nat, sep: char): (r: Option<nat>)
    decreases |msg| - k
    ensures r.Some? ==>
              && k <= r.value < |msg| && msg[r.value] == sep
              && forall t :: k <= t < r.value ==> msg[t] != sep && msg[t] != '\n'
    ensures r.None? ==>
              forall j :: k <= j < |msg| && msg[j] == sep ==> exists t :: k <= t < j && msg[t] == '\n'
  {
    if k >= |msg| then None
    else if msg[k] == sep then Some(k)
    else if msg[k] == '\n' then None
    else SeparatorFrom(msg, k + 1, sep)
  }

  /** Where the value starting at index `i` ends, if `.+?<sep>` matches there. */
  function ValueEnd(msg: string, i: nat, sep: char): (r: Option<nat>)
    ensures r.Some? ==> ValueEndsAt(msg, i, r.value, sep)
    ensures r.None? ==> forall j :: !ValueEndsAt(msg, i, j, sep)
  {
    if i < |msg| && msg[i] != '\n' then SeparatorFrom(msg, i + 1, sep) else None
  }

  /** The end of the match of `f=.+?<sep>` at position `p`, if there is one. */
  function MatchEnd(msg: string, p: nat, f: string, sep: char): (r: Option<nat>)
    ensures r.Some? ==> SpanMatch(msg, p, f, sep, r.value)
    ensures r.None? ==> forall e :: !SpanMatch(msg, p, f, sep, e)
  {
    if FieldAt(msg, p, f) then
      match ValueEnd(msg, p + |f| + 1, sep)
      case Some(j) => Some(j + 1)
      case None => None
    else None
  }

  /** The first alternative, from index `k` on, that yields a match at position `p`. */
  function MatchFrom(alts: seq<string>, msg: string, p: nat, sep: char, k: nat): (r: Option<Hit>)
    decreases |alts| - k
    ensures r.Some? ==>
              && k <= r.value.alt < |alts|
              && SpanMatch(msg, p, alts[r.value.alt], sep, r.value.end)
              && forall k', e :: k <= k' < r.value.alt ==> !SpanMatch(msg, p, alts[k'], sep, e)
    ensures r.None? ==> forall k', e :: k <= k' < |alts| ==> !SpanMatch(msg, p, alts[k'], sep, e)
  {
    if k >= |alts| then None
    else
      match MatchEnd(msg, p, alts[k], sep)
      case Some(e) => Some(Hit(k, e))
      case None => MatchFrom(alts, msg, p, sep, k + 1)
  }

  /**
   * The match the pattern makes at position `p`: the first listed alternative
   * that leads to a match wins, and there is none exactly when no alternative matches.
   */
  function MatchAt(alts: seq<string>, msg: string, p: nat, sep: char): (r: Option<Hit>)
    ensures r.Some? ==>
              && r.value.alt < |alts|
              && SpanMatch(msg, p, alts[r.value.alt], sep, r.value.end)
              && forall k, e :: 0 <= k < r.value.alt ==> !SpanMatch(msg, p, alts[k], sep, e)
    ensures r.None? <==> Matchless(alts, msg, p, sep)
  {
    MatchFrom(alts, msg, p, sep, 0)
  }

  /**
   * What a match of field `f` is replaced by. With a non-empty placeholder
   * free of separators and newlines, the replacement is itself a match of `f`.
   */
  function Replacement(f: string, redaction: string, sep: char): (r: string)
    ensures |redaction| > 0 && sep !in redaction && '\n' !in redaction ==> SpanMatch(r, 0, f, sep, |r|)
  {
    var r := f + "=" + redaction + [sep];
    assert r[..|f|] == f;
    assert r[|f| + 1..|r| - 1] == redaction;
    r
  }

  /**
   * One step of the scan at position `p`: the text it emits and the position
   * it resumes at. A match emits its replacement and resumes behind the
   * consumed separator; otherwise the character at `p` is copied.
   */
  function Step(alts: seq<string>, redaction: string, msg: string, sep: char, p: nat): (r: (string, nat))
    requires p < |msg|
    ensures p < r.1 <= |msg|
  {
    match MatchAt(alts, msg, p, sep)
    case None => ([msg[p]], p + 1)
    case Some(h) => (Replacement(alts[h.alt], redaction, sep), h.end)
  }

  /**
   * One scan step emits as many line breaks as it consumes, when the
   * placeholder has none: a value never holds a newline.
   */
  lemma StepKeepsLines(alts: seq<string>, redaction: string, msg: string, sep: char, p: nat, rest: string)
    requires p < |msg|
    ensures var step := Step(alts, redaction, msg, sep, p);
            '\n' !in redaction && Newlines(rest) == Newlines(msg[step.1..])
            ==> Newlines(step.0 + rest) == Newlines(msg[p..])
  {
    var step := Step(alts, redaction, msg, sep, p);
    if '\n' !in redaction && Newlines(rest) == Newlines(msg[step.1..]) {
      match MatchAt(alts, msg, p, sep)
      case None =>
        assert msg[p..] == [msg[p]] + msg[p + 1..];
        NewlinesAppend([msg[p]], msg[p + 1..]);
        NewlinesAppend([msg[p]], rest);
      case Some(h) =>
        MatchKeepsLines(msg, p, alts[h.alt], sep, h.end, redaction);
        assert msg[p..] == msg[p..h.end] + msg[h.end..];
        NewlinesAppend(msg[p..h.end], msg[h.end..]);
        NewlinesAppend(step.0, rest);
    }
  }

  /** A match and its replacement hold the same number of line breaks. */
  lemma MatchKeepsLines(msg: string, p: nat, f: string, sep: char, e: nat, redaction: string)
    requires SpanMatch(msg, p, f, sep, e) && '\n' !in redaction
    ensures e <= |msg| && Newlines(Replacement(f, redaction, sep)) == Newlines(msg[p..e])
  {
    var value := msg[p + |f| + 1..e - 1];
    assert msg[p..e] == f + "=" + value + [sep] by {
      assert msg[p..p + |f|] == f;
    }
    NoNewlines(value);
    NoNewlines(redaction);
    NewlinesAppend(f + "=", value);
    NewlinesAppend(f + "=" + value, [sep]);
    NewlinesAppend(f + "=", redaction);
    NewlinesAppend(f + "=" + redaction, [sep]);
  }

  /**
   * The text `re.sub` produces from `msg[p..]`. With a placeholder free of
   * newlines it has exactly as many line breaks as `msg[p..]`.
   */
  function RedactFrom(alts: seq<string>, redaction: string, msg: string, sep: char, p: nat): (r: string)
    decreases |msg| - p
    ensures p <= |msg| && '\n' !in redaction ==> Newlines(r) == Newlines(msg[p..])
  {
    if p >= |msg| then ""
    else
      var step := Step(alts, redaction, msg, sep, p);
      StepKeepsLines(alts, redaction, msg, sep, p, RedactFrom(alts, redaction, msg, sep, step.1));
      step.0 + RedactFrom(alts, redaction, msg, sep, step.1)
  }

  /**
   * `filter_datum(fields, redaction, message, separator)`. A message in which
   * no listed field is followed by `=`, a value and the separator comes back unchanged.
   */
  function FilterDatum(fields: seq<string>, redaction: string, message: string, separator: char): (r: string)
    requires LiteralPattern(fields, separator)
    ensures (forall q :: 0 <= q < |message| ==> Matchless(Alternatives(fields), message, q, separator)) ==> r == message
  {
    NoMatchLeavesMessage(Alternatives(fields), redaction, message, separator);
    RedactFrom(Alternatives(fields), redaction, message, separator, 0)
  }

  /**
   * `RedactingFormatter.format` after the record has been rendered: the
   * redaction runs over the whole rendered line with `***` and `;`.
   */
  function Format(fields: seq<string>, rendered: string): (r: string)
    requires LiteralPattern(fields, SEPARATOR)
    ensures (forall q :: 0 <= q < |rendered| ==> Matchless(Alternatives(fields), rendered, q, SEPARATOR)) ==> r == rendered
  {
    FilterDatum(fields, REDACTION, rendered, SEPARATOR)
  }

  /**
   * Redaction never joins or splits log lines: with a placeholder free of
   * newlines the result has as many line breaks as the message, and the
   * formatter's `***` is such a placeholder.
   */
  lemma RedactionKeepsLineCount(fields: seq<string>, redaction: string, message: string, separator: char)
    requires LiteralPattern(fields, separator)
    ensures '\n' !in redaction ==> Newlines(FilterDatum(fields, redaction, message, separator)) == Newlines(message)
    ensures separator == SEPARATOR ==> Newlines(Format(fields, message)) == Newlines(message)
  {
    assert message[0..] == message;
  }

  /** A match of `f` at `p` has only one possible end: the first separator after the value starts. */
  lemma SpanEndUnique(msg: string, p: nat, f: string, sep: char, e1: nat, e2: nat)
    requires SpanMatch(msg, p, f, sep, e1) && SpanMatch(msg, p, f, sep, e2)
    ensures e1 == e2
  {
  }

  /** The leftmost, first-listed match is the one `MatchAt` reports. */
  lemma MatchAtFindsFirstAlternative(alts: seq<string>, msg: string, p: nat, sep: char, k: nat, e: nat)
    requires k < |alts| && SpanMatch(msg, p, alts[k], sep, e)
    requires forall k', e' :: 0 <= k' < k ==> !SpanMatch(msg, p, alts[k'], sep, e')
    ensures MatchAt(alts, msg, p, sep) == Some(Hit(k, e))
  {
    var r := MatchAt(alts, msg, p, sep);
    assert !Matchless(alts, msg, p, sep);
    assert r.value.alt == k;
    SpanEndUnique(msg, p, alts[k], sep, e, r.value.end);
  }

  /** Where nothing matches, every character of the message is copied verbatim and in order. */
  lemma {:induction false} UnmatchedSuffixIsCopied(alts: seq<string>, redaction: string, msg: string, sep: char, p: nat)
    requires p <= |msg|
    requires forall q :: p <= q < |msg| ==> Matchless(alts, msg, q, sep)
    ensures RedactFrom(alts, redaction, msg, sep, p) == msg[p..]
    decreases |msg| - p
  {
    if p < |msg| {
      assert Step(alts, redaction, msg, sep, p) == ([msg[p]], p + 1);
      UnmatchedSuffixIsCopied(alts, redaction, msg, sep, p + 1);
      assert msg[p..] == [msg[p]] + msg[p + 1..];
    }
  }

  lemma NoMatchLeavesMessage(alts: seq<string>, redaction: string, msg: string, sep: char)
    ensures (forall q :: 0 <= q < |msg| ==> Matchless(alts, msg, q, sep)) ==> RedactFrom(alts, redaction, msg, sep, 0) == msg
  {
    if forall q :: 0 <= q < |msg| ==> Matchless(alts, msg, q, sep) {
      UnmatchedSuffixIsCopied(alts, redaction, msg, sep, 0);
    }
  }

  /**
   * The leftmost match, by the first alternative that matches there, is
   * replaced by `field=<redaction><sep>`; the text before it is copied
   * verbatim, and scanning resumes behind the consumed separator.
   */
  lemma {:induction false} LeftmostMatchIsRedacted(alts: seq<string>, redaction: string, msg: string, sep: char,
                                                   p0: nat, p: nat, k: nat, e: nat)
    requires p0 <= p
    requires forall q :: p0 <= q < p ==> Matchless(alts, msg, q, sep)
    requires k < |alts| && SpanMatch(msg, p, alts[k], sep, e)
    requires forall k', e' :: 0 <= k' < k ==> !SpanMatch(msg, p, alts[k'], sep, e')
    ensures e <= |msg|
    ensures RedactFrom(alts, redaction, msg, sep, p0)
            == msg[p0..p] + (Replacement(alts[k], redaction, sep) + RedactFrom(alts, redaction, msg, sep, e))
    decreases p - p0
  {
    var tail := Replacement(alts[k], redaction, sep) + RedactFrom(alts, redaction, msg, sep, e);
    if p0 == p {
      MatchAtFindsFirstAlternative(alts, msg, p, sep, k, e);
      assert Step(alts, redaction, msg, sep, p) == (Replacement(alts[k], redaction, sep), e);
      assert msg[p0..p] == [];
    } else {
      LeftmostMatchIsRedacted(alts, redaction, msg, sep, p0 + 1, p, k, e);
      assert Matchless(alts, msg, p0, sep);
      assert Step(alts, redaction, msg, sep, p0) == ([msg[p0]], p0 + 1);
      assert RedactFrom(alts, redaction, msg, sep, p0) == [msg[p0]] + RedactFrom(alts, redaction, msg, sep, p0 + 1);
      assert msg[p0..p] == [msg[p0]] + msg[p0 + 1..p];
      assert [msg[p0]] + (msg[p0 + 1..p] + tail) == ([msg[p0]] + msg[p0 + 1..p]) + tail;
    }
  }

  /*
   * Worked examples. Each takes the message as a parameter fixed by its
   * precondition, which keeps the verifier from evaluating the scanner on
   * literal text step by step.
   */

  /** The value ends at the first separator: `password=secret;x;` redacts only `secret`. */
  lemma ValueStopsAtFirstSeparator(msg: string)
    requires msg == "password=secret;x;"
    ensures FilterDatum(["password"], REDACTION, msg, ';') == "password=***;" + "x;"
  {
    assert SpanMatch(msg, 0, "password", ';', 16);
    LeftmostMatchIsRedacted(["password"], REDACTION, msg, ';', 0, 0, 0, 16);
    UnmatchedSuffixIsCopied(["password"], REDACTION, msg, ';', 16);
    PasswordReplacement("password");
    assert msg[0..0] == [];
    assert msg[16..] == "x;";
  }

  /** An empty value takes the first separator as its first character and runs to the next one. */
  lemma EmptyValueSwallowsSeparator(msg: string)
    requires msg == "a=;x;"
    ensures FilterDatum(["a"], REDACTION, msg, ';') == "a=***;"
  {
    assert SpanMatch(msg, 0, "a", ';', 5);
    LeftmostMatchIsRedacted(["a"], REDACTION, msg, ';', 0, 0, 0, 5);
  }

  /** Field names match as substrings: with the field `name`, `username=bob;` is redacted. */
  lemma FieldMatchesInsideLongerKey(msg: string)
    requires msg == "username=bob;"
    ensures FilterDatum(["name"], REDACTION, msg, ';') == "user" + "name=***;"
  {
    assert SpanMatch(msg, 4, "name", ';', 13);
    forall q | 0 <= q < 4
      ensures Matchless(["name"], msg, q, ';')
    {
      assert msg[q + 4] != '=';
    }
    LeftmostMatchIsRedacted(["name"], REDACTION, msg, ';', 0, 4, 0, 13);
    assert Replacement("name", REDACTION, ';') == "name=***;";
    assert msg[0..4] == "user";
  }

  /** An empty field list joins to the empty group, which redacts every `=value;`. */
  lemma EmptyFieldListRedactsEveryValue(msg: string)
    requires msg == "a=1;"
    ensures FilterDatum([], REDACTION, msg, ';') == "a=***;"
  {
    assert SpanMatch(msg, 1, "", ';', 4);
    assert Matchless([""], msg, 0, ';') by {
      assert msg[0] != '=';
    }
    LeftmostMatchIsRedacted([""], REDACTION, msg, ';', 0, 1, 0, 4);
    assert msg[0..1] == "a";
  }

  /**
   * At one position the first listed field that leads to a match wins: with
   * `a` listed first the value of `a=b=c;` is `b=c`, with `a=b` first it is `c`.
   */
  lemma FirstListedFieldWins(msg: string)
    requires msg == "a=b=c;"
    ensures FilterDatum(["a", "a=b"], REDACTION, msg, ';') == "a=***;"
    ensures FilterDatum(["a=b", "a"], REDACTION, msg, ';') == "a=b=***;"
  {
    assert SpanMatch(msg, 0, "a", ';', 6);
    LeftmostMatchIsRedacted(["a", "a=b"], REDACTION, msg, ';', 0, 0, 0, 6);
    assert Replacement("a", REDACTION, ';') == "a=***;";
    assert msg[0..3] == "a=b";
    assert SpanMatch(msg, 0, "a=b", ';', 6);
    LeftmostMatchIsRedacted(["a=b", "a"], REDACTION, msg, ';', 0, 0, 0, 6);
    assert Replacement("a=b", REDACTION, ';') == "a=b=***;";
  }

  /** A value cannot run over a newline, so nothing is redacted here. */
  lemma ValueNeverSpansNewline(msg: string)
    requires msg == "password=se\ncret;"
    ensures FilterDatum(["password"], REDACTION, msg, ';') == msg
  {
    assert forall m :: 0 <= m < |msg| && msg[m] == '=' ==> m == 8;
    assert forall m :: 0 <= m < |msg| && msg[m] == ';' ==> m == 16;
    assert msg[11] == '\n';
    forall q | 0 <= q < |msg|
      ensures Matchless(["password"], msg, q, ';')
    {
    }
  }

  /** The formatter redacts the rendered line with `***` and `;`. */
  lemma FormatRedactsRenderedLine(rendered: string)
    requires rendered == "name=bob;password=secret;"
    ensures Format(["password"], rendered) == "name=bob;" + "password=***;"
  {
    SecondPairRedacted(["password"], rendered);
  }

  /** Only the value of the listed field is redacted; the pair before it is copied. */
  lemma SecondPairRedacted(fields: seq<string>, msg: string)
    requires fields == ["password"] && msg == "name=bob;password=secret;"
    ensures FilterDatum(fields, REDACTION, msg, ';') == "name=bob;" + "password=***;"
  {
    SecondPairShape(fields, msg);
    PasswordReplacement(fields[0]);
    LeftmostMatchIsRedacted(fields, REDACTION, msg, ';', 0, 9, 0, 25);
    var replaced := Replacement(fields[0], REDACTION, ';');
    assert replaced + RedactFrom(fields, REDACTION, msg, ';', 25) == replaced;
  }

  /** The formatter's replacement for a `password` match. */
  lemma PasswordReplacement(f: string)
    requires f == "password"
    ensures Replacement(f, REDACTION, ';') == "password=***;"
  {
  }

  /** Where the match in `name=bob;password=secret;` lies. */
  lemma SecondPairShape(fields: seq<string>, msg: string)
    requires fields == ["password"] && msg == "name=bob;password=secret;"
    ensures LiteralPattern(fields, ';')
    ensures SpanMatch(msg, 9, fields[0], ';', 25)
    ensures forall q :: 0 <= q < 9 ==> Matchless(fields, msg, q, ';')
    ensures msg[0..9] == "name=bob;"
  {
    LowerNameIsLiteral(fields[0]);
    assert SpanMatch(msg, 9, "password", ';', 25);
    assert forall m :: 0 <= m < |msg| && msg[m] == '=' ==> m == 4 || m == 17;
  }

  /**
   * The default field tuple has 8 entries; it holds "ssnpassword" and neither
   * "ssn" nor "password".
   */
  lemma PiiFieldsQuirk()
    ensures |PII_FIELDS| == 8
    ensures "ssnpassword" in PII_FIELDS
    ensures "ssn" !in PII_FIELDS && "password" !in PII_FIELDS
  {
    assert PII_FIELDS[4] == "ssnpassword";
  }

  /** Consequently the default fields leave a `password=` value in clear. */
  lemma DefaultFieldsKeepPassword(rendered: string)
    requires rendered == "password=secret;"
    ensures LiteralPattern(PII_FIELDS, SEPARATOR)
    ensures Format(PII_FIELDS, rendered) == rendered
  {
    PiiFieldsAreLiteral();
    assert forall m :: 0 <= m < |rendered| && rendered[m] == '=' ==> m == 8;
    forall k | 0 <= k < |PII_FIELDS|
      ensures forall q :: !FieldAt(rendered, q, PII_FIELDS[k])
    {
      var f := PII_FIELDS[k];
      assert |f| > 8 || f[|f| - 1] != 'd';
      NoFieldBeforeEquals(rendered, f, 8);
    }
    forall q | 0 <= q < |rendered|
      ensures Matchless(PII_FIELDS, rendered, q, SEPARATOR)
    {
    }
    NoMatchLeavesMessage(PII_FIELDS, REDACTION, rendered, SEPARATOR);
  }

  /**
   * When `n` is the only index of `=` in `msg`, a field matches nowhere unless
   * it fits before that `=` and ends with the character in front of it.
   */
  lemma NoFieldBeforeEquals(msg: string, f: string, n: nat)
    requires 0 < n < |msg|
    requires forall m :: 0 <= m < |msg| && msg[m] == '=' ==> m == n
    requires |f| > n || (|f| > 0 && f[|f| - 1] != msg[n - 1])
    ensures forall q :: !FieldAt(msg, q, f)
  {
    forall q: nat
      ensures !FieldAt(msg, q, f)
    {
      if |f| <= n && q + |f| < |msg| && msg[q + |f|] == '=' {
        assert q + |f| == n;
        assert msg[q..q + |f|][|f| - 1] == msg[n - 1];
      }
    }
  }

  /** A name made of lower-case letters and underscores is plain text. */
  lemma LowerNameIsLiteral(f: string)
    requires forall i :: 0 <= i < |f| ==> 'a' <= f[i] <= 'z' || f[i] == '_'
    ensures IsLiteral(f)
  {
  }

  lemma PiiFieldsAreLiteral()
    ensures LiteralPattern(PII_FIELDS, SEPARATOR)
  {
    forall k | 0 <= k < |PII_FIELDS|
      ensures IsLiteral(PII_FIELDS[k])
    {
      LowerNameIsLiteral(PII_FIELDS[k]);
    }
  }

  lemma IntendedFieldsAreLiteral()
    ensures LiteralPattern(INTENDED_PII_FIELDS, SEPARATOR)
  {
    forall k | 0 <= k < |INTENDED_PII_FIELDS|
      ensures IsLiteral(INTENDED_PII_FIELDS[k])
    {
      LowerNameIsLiteral(INTENDED_PII_FIELDS[k]);
    }
  }

  /** With the comma restored, the default fields do redact a `password=` value. */
  lemma IntendedFieldsRedactPassword(rendered: string)
    requires rendered == "password=secret;"
    ensures |INTENDED_PII_FIELDS| == 9 && "password" in INTENDED_PII_FIELDS
    ensures LiteralPattern(INTENDED_PII_FIELDS, SEPARATOR)
    ensures Format(INTENDED_PII_FIELDS, rendered) == "password=***;"
  {
    IntendedFieldsAreLiteral();
    assert INTENDED_PII_FIELDS[5] == "password";
    assert SpanMatch(rendered, 0, "password", SEPARATOR, 16);
    forall k, e | 0 <= k < 5
      ensures !SpanMatch(rendered, 0, INTENDED_PII_FIELDS[k], SEPARATOR, e)
    {
      assert |INTENDED_PII_FIELDS[k]| < 8;
      assert rendered[|INTENDED_PII_FIELDS[k]|] != '=';
    }
    LeftmostMatchIsRedacted(INTENDED_PII_FIELDS, REDACTION, rendered, SEPARATOR, 0, 0, 5, 16);
    PasswordReplacement(INTENDED_PII_FIELDS[5]);
    assert rendered[0..0] == [];
    assert RedactFrom(INTENDED_PII_FIELDS, REDACTION, rendered, SEPARATOR, 16) == [];
  }

  /**
   * The explicit scanner: walks the message once, copying unmatched
   * characters and replacing each match, and computes `filter_datum`.
   */
  method Scan(fields: seq<string>, redaction: string, message: string, separator: char) returns (out: string)
    requires LiteralPattern(fields, separator)
    ensures out == FilterDatum(fields, redaction, message, separator)
  {
    var alts := Alternatives(fields);
    out := "";
    var p := 0;
    while p < |message|
      invariant p <= |message|
      invariant out + RedactFrom(alts, redaction, message, separator, p)
                == RedactFrom(alts, redaction, message, separator, 0)
      decreases |message| - p
    {
      var step := Step(alts, redaction, message, separator, p);
      ghost var rest := RedactFrom(alts, redaction, message, separator, step.1);
      assert RedactFrom(alts, redaction, message, separator, p) == step.0 + rest;
      assert out + (step.0 + rest) == (out + step.0) + rest;
      out := out + step.0;
      p := step.1;
    }
    assert RedactFrom(alts, redaction, message, separator, p) == [];
    assert out + [] == out;
  }
}
