/** The web console's data-shaping helpers: query-log entries, percentages,
    address lists typed into a text area, WHOIS records, client search
    parameters and the filtering status. JavaScript objects become Dafny
    datatypes or maps, and their fields JavaScript values (`Js.Value`). */
module Helpers {
  import opened Results
  import opened Js

  // ---------------------------------------------------------------------------
  // Generic string helpers

  /** The position of the first `c` in `s`. */
  function IndexOf(s: string, c: char): (k: Option<nat>)
    ensures k.None? <==> c !in s
    ensures k.Some? ==> k.value < |s| && s[k.value] == c && c !in s[..k.value]
  {
    if s == [] then None
    else if s[0] == c then Some(0)
    else
      match IndexOf(s[1..], c)
      case None => None
      case Some(k) => assert s[..k + 1] == [s[0]] + s[1..][..k]; Some(k + 1)
  }

  /** The position of the last `c` in `s`. */
  function LastIndexOf(s: string, c: char): (k: Option<nat>)
    ensures k.None? <==> c !in s
    ensures k.Some? ==> k.value < |s| && s[k.value] == c && c !in s[k.value + 1..]
  {
    if s == [] then None
    else if s[|s| - 1] == c then Some(|s| - 1)
    else
      match LastIndexOf(s[..|s| - 1], c)
      case None => None
      case Some(k) => assert s[k + 1..] == s[..|s| - 1][k + 1..] + [s[|s| - 1]]; Some(k)
  }

  /** A slice inside the left operand of a concatenation. */
  lemma SliceLeft(x: string, y: string, a: nat, b: nat)
    requires a <= b <= |x|
    ensures (x + y)[a..b] == x[a..b]
  {
  }

  /** The right operand of a concatenation, sliced back out. */
  lemma SliceRight(x: string, y: string)
    ensures (x + y)[|x|..] == y
  {
  }

  /** `IndexOf` finds a `c` with none before it. */
  lemma IndexOfAt(s: string, c: char, i: nat)
    requires i < |s| && s[i] == c && c !in s[..i]
    ensures IndexOf(s, c) == Some(i)
  {
    var k := IndexOf(s, c).value;
    forall m | 0 <= m < i
      ensures s[m] != c
    {
      assert s[..i][m] == s[m];
    }
    forall m | 0 <= m < k
      ensures s[m] != c
    {
      assert s[..k][m] == s[m];
    }
  }

  /** `LastIndexOf` finds a `c` with none after it. */
  lemma LastIndexOfAt(s: string, c: char, j: nat)
    requires j < |s| && s[j] == c && c !in s[j + 1..]
    ensures LastIndexOf(s, c) == Some(j)
  {
    var k := LastIndexOf(s, c).value;
    forall m | j < m < |s|
      ensures s[m] != c
    {
      assert s[j + 1..][m - j - 1] == s[m];
    }
    forall m | k < m < |s|
      ensures s[m] != c
    {
      assert s[k + 1..][m - k - 1] == s[m];
    }
  }

  // ---------------------------------------------------------------------------
  // normalizeLogs

  /** One answer record of a query-log entry. */
  datatype Answer = Answer(rtype: Value, value: Value, ttl: Value)

  /** A query-log entry as the server sends it. An answer list that is
      missing (`undefined` or `null`) is `None`. */
  datatype LogEntry = LogEntry(
    time: Value,
    questionHost: Value,
    questionType: Value,
    answer: Option<seq<Answer>>,
    reason: Value,
    client: Value,
    filterId: Value,
    rule: Value,
    serviceName: Value,
    status: Value,
    originalAnswer: Value)

  /** A query-log entry as the console shows it. */
  datatype LogView = LogView(
    time: Value,
    domain: Value,
    rtype: Value,
    response: seq<string>,
    reason: Value,
    client: Value,
    filterId: Value,
    rule: Value,
    status: Value,
    serviceName: Value,
    originalAnswer: Value)

  /** One answer as text: `<type>: <value> (ttl=<ttl>)`. `ParseAnswer` is its
      inverse: `FormatAnswerRoundTrip` and `NumberTtlRoundTrip` show that the
      type, value and TTL texts read back from the result. */
  function FormatAnswer(a: Answer): (s: string)
    ensures |s| >= 9 && s[|s| - 1] == ')'
  {
    AnswerText(ToString(a.rtype), ToString(a.value), ToString(a.ttl))
  }

  function AnswerText(t: string, v: string, l: string): string {
    t + ": " + v + " (ttl=" + l + ")"
  }

  /** Reads a formatted answer back into its type, value and TTL texts: the
      type runs to the first ':', the TTL from the last '=' to the closing
      parenthesis. */
  function ParseAnswer(s: string): (r: Option<(string, string, string)>)
  {
    var i, j := IndexOf(s, ':'), LastIndexOf(s, '=');
    if i.Some? && j.Some? && Framed(s, i.value, j.value)
    then Some((s[..i.value], s[i.value + 2..j.value - 5], s[j.value + 1..|s| - 1]))
    else None
  }

  /** `s` has ": " at `i`, " (ttl=" ending at `j` and a final ')'. */
  predicate Framed(s: string, i: nat, j: nat) {
    i + 7 <= j && j + 1 < |s| && s[i..i + 2] == ": " && s[j - 5..j + 1] == " (ttl=" && s[|s| - 1] == ')'
  }

  /** Every answer whose type text has no ':' and whose TTL text has no '='
      reads back from its formatted text. */
  lemma FormatAnswerRoundTrip(a: Answer)
    requires ':' !in ToString(a.rtype) && '=' !in ToString(a.ttl)
    ensures ParseAnswer(FormatAnswer(a)) == Some((ToString(a.rtype), ToString(a.value), ToString(a.ttl)))
  {
    AnswerTextRoundTrip(ToString(a.rtype), ToString(a.value), ToString(a.ttl));
  }

  lemma AnswerTextRoundTrip(t: string, v: string, l: string)
    requires ':' !in t && '=' !in l
    ensures ParseAnswer(AnswerText(t, v, l)) == Some((t, v, l))
  {
    var A := t + ": ";
    var B := A + v;
    var C := B + " (ttl=";
    var D := C + l;
    var s := D + ")";
    assert s == AnswerText(t, v, l);
    var i, j := |t|, |B| + 5;
    assert s[..i] == t by {
      SliceLeft(D, ")", 0, i);
      SliceLeft(C, l, 0, i);
      SliceLeft(B, " (ttl=", 0, i);
      SliceLeft(A, v, 0, i);
      SliceLeft(t, ": ", 0, i);
    }
    assert s[i..i + 2] == ": " by {
      SliceLeft(D, ")", i, i + 2);
      SliceLeft(C, l, i, i + 2);
      SliceLeft(B, " (ttl=", i, i + 2);
      SliceLeft(A, v, i, i + 2);
      SliceRight(t, ": ");
    }
    assert s[i + 2..j - 5] == v by {
      SliceLeft(D, ")", i + 2, j - 5);
      SliceLeft(C, l, i + 2, j - 5);
      SliceLeft(B, " (ttl=", i + 2, j - 5);
      SliceRight(A, v);
    }
    assert s[j - 5..j + 1] == " (ttl=" by {
      SliceLeft(D, ")", j - 5, j + 1);
      SliceLeft(C, l, j - 5, j + 1);
      SliceRight(B, " (ttl=");
    }
    assert s[j + 1..|s| - 1] == l by {
      SliceLeft(D, ")", j + 1, |D|);
      SliceRight(C, l);
    }
    assert s[j + 1..] == l + ")" by {
      assert s == C + (l + ")");
      SliceRight(C, l + ")");
    }
    IndexOfAt(s, ':', i);
    LastIndexOfAt(s, '=', j);
    assert Framed(s, i, j);
    ParseAnswerAt(s, i, j);
  }

  /** `ParseAnswer` on a text whose first ':' and last '=' are known. */
  lemma {:induction false} ParseAnswerAt(s: string, i: nat, j: nat)
    requires IndexOf(s, ':') == Some(i) && LastIndexOf(s, '=') == Some(j)
    requires Framed(s, i, j)
    ensures ParseAnswer(s) == Some((s[..i], s[i + 2..j - 5], s[j + 1..|s| - 1]))
  {
  }

  /** A number TTL always reads back. */
  lemma NumberTtlRoundTrip(a: Answer)
    requires ':' !in ToString(a.rtype) && a.ttl.Num?
    ensures ParseAnswer(FormatAnswer(a)) == Some((ToString(a.rtype), ToString(a.value), ToString(a.ttl)))
  {
    assert forall k :: 0 <= k < |ToString(a.ttl)| ==> ToString(a.ttl)[k] == '-' || IsDigit(ToString(a.ttl)[k]);
    FormatAnswerRoundTrip(a);
  }

  /** The answers of one entry as text; none when the list is missing. */
  function FormatAnswers(answer: Option<seq<Answer>>): (texts: seq<string>)
    ensures answer.None? ==> texts == []
    ensures answer.Some? ==> |texts| == |answer.value|
                             && forall i :: 0 <= i < |texts| ==> texts[i] == FormatAnswer(answer.value[i])
  {
    match answer
    case None => []
    case Some(list) => seq(|list|, i requires 0 <= i < |list| => FormatAnswer(list[i]))
  }

  /** One entry of `normalizeLogs`. */
  function NormalizeLog(e: LogEntry): (v: LogView)
    ensures v.domain == e.questionHost && v.rtype == e.questionType
    ensures v.response == FormatAnswers(e.answer)
    ensures v.time == e.time && v.reason == e.reason && v.client == e.client && v.filterId == e.filterId
    ensures v.rule == e.rule && v.status == e.status && v.serviceName == e.serviceName
    ensures v.originalAnswer == e.originalAnswer
  {
    LogView(e.time, e.questionHost, e.questionType, FormatAnswers(e.answer), e.reason, e.client,
            e.filterId, e.rule, e.status, e.serviceName, e.originalAnswer)
  }

  /** `normalizeLogs`: every entry reshaped, in order. */
  function NormalizeLogs(logs: seq<LogEntry>): (views: seq<LogView>)
    ensures |views| == |logs|
    ensures forall i :: 0 <= i < |logs| ==> views[i] == NormalizeLog(logs[i])
  {
    seq(|logs|, i requires 0 <= i < |logs| => NormalizeLog(logs[i]))
  }

  /** Each shown answer line reads back to the answer's type, value and
      TTL, when types have no ':' and TTLs are numbers. */
  lemma NormalizeLogsReadBack(logs: seq<LogEntry>, i: nat, k: nat)
    requires i < |logs| && logs[i].answer.Some? && k < |logs[i].answer.value|
    requires ':' !in ToString(logs[i].answer.value[k].rtype) && logs[i].answer.value[k].ttl.Num?
    ensures var a := logs[i].answer.value[k];
            ParseAnswer(NormalizeLogs(logs)[i].response[k])
            == Some((ToString(a.rtype), ToString(a.value), ToString(a.ttl)))
  {
    NumberTtlRoundTrip(logs[i].answer.value[k]);
  }

  // ---------------------------------------------------------------------------
  // getPercent

  /** lodash `round(x, 2)`: the nearest multiple of 0.01, halves rounded up. */
  function Round2(x: real): (r: real)
    ensures r * 100.0 == (r * 100.0).Floor as real
    ensures x - 0.005 < r <= x + 0.005
  {
    (x * 100.0 + 0.5).Floor as real / 100.0
  }

  /** `getPercent`: how many percent `number` is of `amount`, to two
      decimals; 0 unless both are positive. */
  function GetPercent(amount: real, number: real): (p: real)
    ensures !(amount > 0.0 && number > 0.0) ==> p == 0.0
    ensures amount > 0.0 && number > 0.0 ==>
              100.0 * number / amount - 0.005 < p <= 100.0 * number / amount + 0.005
    ensures p * 100.0 == (p * 100.0).Floor as real
  {
    if amount > 0.0 && number > 0.0 then
      assert 100.0 / (amount / number) == 100.0 * number / amount;
      Round2(100.0 / (amount / number))
    else 0.0
  }

  /** Equal amounts are 100 percent, half is 50. */
  lemma PercentExamples(amount: real)
    requires amount > 0.0
    ensures GetPercent(amount, amount) == 100.0
    ensures GetPercent(2.0 * amount, amount) == 50.0
  {
    assert 100.0 / (amount / amount) == 100.0;
    assert (100.0 * 100.0 + 0.5).Floor == 10000;
    assert 100.0 / ((2.0 * amount) / amount) == 50.0;
    assert (50.0 * 100.0 + 0.5).Floor == 5000;
  }

  // ---------------------------------------------------------------------------
  // normalizeTextarea

  /** The characters the text area treats as list separators: `;`, `,`,
      space, and line breaks. */
  predicate IsSeparator(c: char) {
    c == ';' || c == ',' || c == ' ' || c == '\n'
  }

  /** `text.replace(/[;, ]/g, '\n')`. */
  function SeparatorsToNewlines(s: string): (t: string)
    ensures |t| == |s|
    ensures forall i :: 0 <= i < |s| ==> t[i] == if IsSeparator(s[i]) then '\n' else s[i]
  {
    seq(|s|, i requires 0 <= i < |s| => if IsSeparator(s[i]) then '\n' else s[i])
  }

  /** `.filter(n => n)` on a list of strings. */
  function NonEmpty(pieces: seq<string>): (r: seq<string>)
    ensures forall i :: 0 <= i < |r| ==> r[i] != [] && r[i] in pieces
  {
    if pieces == [] then []
    else if pieces[0] == [] then NonEmpty(pieces[1..])
    else [pieces[0]] + NonEmpty(pieces[1..])
  }

  /** `normalizeTextarea`: the items of a list typed with any mix of
      separators. The empty text is returned as it is (`None`). */
  function NormalizeTextarea(text: string): (r: Option<seq<string>>)
    ensures r.None? <==> text == ""
    ensures r.Some? ==> forall i :: 0 <= i < |r.value| ==>
                          r.value[i] != "" && forall k :: 0 <= k < |r.value[i]| ==> !IsSeparator(r.value[i][k])
  {
    if text == "" then None
    else
      var pieces := Split(SeparatorsToNewlines(text), '\n');
      assert forall i :: 0 <= i < |pieces| ==> forall k :: 0 <= k < |pieces[i]| ==> !IsSeparator(pieces[i][k]) by {
        forall i, k | 0 <= i < |pieces| && 0 <= k < |pieces[i]|
          ensures !IsSeparator(pieces[i][k])
        {
          SplitPieceChars(SeparatorsToNewlines(text), '\n', i, k);
        }
      }
      Some(NonEmpty(pieces))
  }

  /** Every character of a piece is a character of the split string. */
  lemma {:induction false} SplitPieceChars(s: string, sep: char, i: nat, k: nat)
    requires i < |Split(s, sep)| && k < |Split(s, sep)[i]|
    ensures Split(s, sep)[i][k] in s
  {
    if s != [] {
      var rest := Split(s[1..], sep);
      if s[0] == sep {
        SplitPieceChars(s[1..], sep, i - 1, k);
      } else if i == 0 {
        if k > 0 {
          SplitPieceChars(s[1..], sep, 0, k - 1);
        }
      } else {
        SplitPieceChars(s[1..], sep, i, k);
      }
    }
  }

  /** All strings of a list, one after the other. */
  function Concat(pieces: seq<string>): string {
    if pieces == [] then [] else pieces[0] + Concat(pieces[1..])
  }

  /** The text with all separators taken out. */
  function StripSeparators(s: string): (t: string)
    ensures forall k :: 0 <= k < |t| ==> !IsSeparator(t[k])
  {
    if s == [] then []
    else if IsSeparator(s[0]) then StripSeparators(s[1..])
    else [s[0]] + StripSeparators(s[1..])
  }

  /** Without its separators, the text is exactly the items run together. */
  lemma NormalizeTextareaKeepsText(text: string)
    requires text != ""
    ensures Concat(NormalizeTextarea(text).value) == StripSeparators(text)
  {
    var t := SeparatorsToNewlines(text);
    ConcatNonEmpty(Split(t, '\n'));
    ConcatSplit(t, '\n');
    StripNewlines(text);
  }

  lemma {:induction false} ConcatNonEmpty(pieces: seq<string>)
    ensures Concat(NonEmpty(pieces)) == Concat(pieces)
  {
    if pieces != [] {
      var rest := NonEmpty(pieces[1..]);
      ConcatNonEmpty(pieces[1..]);
      if pieces[0] != [] {
        var kept := [pieces[0]] + rest;
        assert NonEmpty(pieces) == kept;
        assert kept[0] == pieces[0] && kept[1..] == rest;
        assert Concat(kept) == pieces[0] + Concat(rest);
      } else {
        assert NonEmpty(pieces) == rest;
        assert Concat(pieces) == Concat(pieces[1..]);
      }
    }
  }

  /** `s` with every `c` taken out. */
  function Remove(s: string, c: char): string {
    if s == [] then [] else if s[0] == c then Remove(s[1..], c) else [s[0]] + Remove(s[1..], c)
  }

  lemma {:induction false} ConcatSplit(s: string, sep: char)
    ensures Concat(Split(s, sep)) == Remove(s, sep)
  {
    if s != [] {
      ConcatSplit(s[1..], sep);
      var rest := Split(s[1..], sep);
      if s[0] == sep {
        assert Split(s, sep) == [[]] + rest;
        assert ([[]] + rest)[1..] == rest;
      } else {
        var p := Split(s, sep);
        assert p == [[s[0]] + rest[0]] + rest[1..];
        assert p[1..] == rest[1..];
        assert Concat(rest) == rest[0] + Concat(rest[1..]);
      }
    }
  }

  lemma {:induction false} StripNewlines(s: string)
    ensures Remove(SeparatorsToNewlines(s), '\n') == StripSeparators(s)
  {
    if s != [] {
      StripNewlines(s[1..]);
      assert SeparatorsToNewlines(s)[1..] == SeparatorsToNewlines(s[1..]);
    }
  }

  /** A list of separator-free items typed one per line reads back as the
      same list. */
  lemma NormalizeTextareaRoundTrip(items: seq<string>)
    requires |items| > 0
    requires forall i :: 0 <= i < |items| ==> items[i] != [] && forall k :: 0 <= k < |items[i]| ==> !IsSeparator(items[i][k])
    ensures NormalizeTextarea(Join(items, '\n')) == Some(items)
  {
    var text := Join(items, '\n');
    JoinNoSeparatorChange(items);
    assert '\n' !in items[0];
    JoinNotEmpty(items);
    forall i | 0 <= i < |items|
      ensures '\n' !in items[i]
    {
      assert forall k :: 0 <= k < |items[i]| ==> items[i][k] != '\n';
    }
    SplitJoin(items, '\n');
    NonEmptyKeeps(items);
  }

  lemma {:induction false} JoinNotEmpty(items: seq<string>)
    requires |items| > 0 && items[0] != []
    ensures Join(items, '\n') != []
  {
  }

  /** Separator-free items joined by line breaks are left alone by the
      replacement. */
  lemma {:induction false} JoinNoSeparatorChange(items: seq<string>)
    requires forall i :: 0 <= i < |items| ==> forall k :: 0 <= k < |items[i]| ==> !IsSeparator(items[i][k])
    ensures SeparatorsToNewlines(Join(items, '\n')) == Join(items, '\n')
  {
    var s := Join(items, '\n');
    forall k | 0 <= k < |s|
      ensures IsSeparator(s[k]) ==> s[k] == '\n'
    {
      JoinChar(items, '\n', k);
    }
  }

  /** A character of a joined string is the separator or a character of
      some piece. */
  lemma {:induction false} JoinChar(items: seq<string>, sep: char, k: nat)
    requires k < |Join(items, sep)|
    ensures Join(items, sep)[k] == sep || exists i, m :: 0 <= i < |items| && 0 <= m < |items[i]| && items[i][m] == Join(items, sep)[k]
  {
    if |items| == 1 {
      assert items[0][k] == Join(items, sep)[k];
    } else if |items| > 1 {
      var s := Join(items, sep);
      if k < |items[0]| {
        assert s[k] == items[0][k];
      } else if k > |items[0]| {
        var rest := Join(items[1..], sep);
        assert s[k] == rest[k - |items[0]| - 1];
        JoinChar(items[1..], sep, k - |items[0]| - 1);
        if rest[k - |items[0]| - 1] != sep {
          var i, m :| 0 <= i < |items[1..]| && 0 <= m < |items[1..][i]| && items[1..][i][m] == rest[k - |items[0]| - 1];
          assert items[i + 1][m] == s[k];
        }
      }
    }
  }

  lemma {:induction false} NonEmptyKeeps(pieces: seq<string>)
    requires forall i :: 0 <= i < |pieces| ==> pieces[i] != []
    ensures NonEmpty(pieces) == pieces
  {
    if pieces != [] {
      NonEmptyKeeps(pieces[1..]);
    }
  }

  /** An item of a typed list: non-empty and free of separators. */
  predicate IsItem(s: string) {
    s != [] && forall k :: 0 <= k < |s| ==> !IsSeparator(s[k])
  }

  /** A run of separators, possibly empty. */
  predicate IsGap(s: string) {
    forall k :: 0 <= k < |s| ==> IsSeparator(s[k])
  }

  /** The text `gaps[0] + items[0] + gaps[1] + ... + items[n - 1] + gaps[n]`. */
  function Interleave(items: seq<string>, gaps: seq<string>): (text: string)
    requires |gaps| == |items| + 1
    ensures |text| >= |gaps[0]|
  {
    if items == [] then gaps[0] else gaps[0] + items[0] + Interleave(items[1..], gaps[1..])
  }

  /** A text cut into its maximal runs of non-separators (the items) and the
      separator runs around them. */
  function Decompose(text: string): (d: (seq<string>, seq<string>))
    ensures |d.1| == |d.0| + 1
    ensures forall i :: 0 <= i < |d.0| ==> IsItem(d.0[i])
    ensures forall i :: 0 <= i < |d.1| ==> IsGap(d.1[i])
    ensures forall i :: 0 < i < |d.0| ==> d.1[i] != []
    ensures Interleave(d.0, d.1) == text
  {
    if text == [] then ([], [[]])
    else
      var c := text[0];
      var (items, gaps) := Decompose(text[1..]);
      assert text == [c] + text[1..];
      if IsSeparator(c) then
        InterleaveGapFront(c, items, gaps);
        (items, [[c] + gaps[0]] + gaps[1..])
      else if items != [] && gaps[0] == [] then
        InterleaveItemFront(c, items, gaps);
        ([[c] + items[0]] + items[1..], gaps)
      else
        InterleaveNewItem(c, items, gaps);
        ([[c]] + items, [[]] + gaps)
  }

  lemma InterleaveGapFront(c: char, items: seq<string>, gaps: seq<string>)
    requires |gaps| == |items| + 1
    ensures Interleave(items, [[c] + gaps[0]] + gaps[1..]) == [c] + Interleave(items, gaps)
  {
    var g := [[c] + gaps[0]] + gaps[1..];
    assert g[1..] == gaps[1..];
    if items != [] {
      assert Interleave(items, g) == [c] + (gaps[0] + items[0] + Interleave(items[1..], gaps[1..]));
    }
  }

  lemma InterleaveItemFront(c: char, items: seq<string>, gaps: seq<string>)
    requires |gaps| == |items| + 1 && items != [] && gaps[0] == []
    ensures Interleave([[c] + items[0]] + items[1..], gaps) == [c] + Interleave(items, gaps)
  {
    var its := [[c] + items[0]] + items[1..];
    assert its[1..] == items[1..];
    assert Interleave(its, gaps) == [c] + (gaps[0] + items[0] + Interleave(items[1..], gaps[1..]));
  }

  lemma InterleaveNewItem(c: char, items: seq<string>, gaps: seq<string>)
    requires |gaps| == |items| + 1
    ensures Interleave([[c]] + items, [[]] + gaps) == [c] + Interleave(items, gaps)
  {
    var its, g := [[c]] + items, [[]] + gaps;
    assert its[1..] == items && g[1..] == gaps;
  }

  /** `normalizeTextarea` returns exactly the maximal separator-free runs of
      the text, in order, or the empty text itself. */
  lemma NormalizeTextareaIsRuns(text: string)
    ensures NormalizeTextarea(text) == if text == "" then None else Some(Decompose(text).0)
  {
    var d := Decompose(text);
    NormalizeTextareaReadsItems(d.0, d.1);
  }

  /** The pieces `normalizeTextarea` keeps once separators are line breaks. */
  function Lines(s: string): seq<string> {
    NonEmpty(Split(s, '\n'))
  }

  /** Any list typed with runs of separators between the items, and
      optionally before the first and after the last, reads back as exactly
      those items: the split points are the separator runs, no more, no less. */
  lemma NormalizeTextareaReadsItems(items: seq<string>, gaps: seq<string>)
    requires |gaps| == |items| + 1
    requires forall i :: 0 <= i < |items| ==> IsItem(items[i])
    requires forall i :: 0 <= i < |gaps| ==> IsGap(gaps[i])
    requires forall i :: 0 < i < |items| ==> gaps[i] != []
    ensures NormalizeTextarea(Interleave(items, gaps)) == if Interleave(items, gaps) == "" then None else Some(items)
  {
    LinesOfInterleave(items, gaps);
  }

  lemma {:induction false} LinesOfInterleave(items: seq<string>, gaps: seq<string>)
    requires |gaps| == |items| + 1
    requires forall i :: 0 <= i < |items| ==> IsItem(items[i])
    requires forall i :: 0 <= i < |gaps| ==> IsGap(gaps[i])
    requires forall i :: 0 < i < |items| ==> gaps[i] != []
    ensures Lines(SeparatorsToNewlines(Interleave(items, gaps))) == items
  {
    var g := SeparatorsToNewlines(gaps[0]);
    if items == [] {
      LinesBreaks(g, []);
      assert g + [] == g;
      assert Split([], '\n') == [[]];
    } else {
      var r := SeparatorsToNewlines(Interleave(items[1..], gaps[1..]));
      InterleaveNewlines(items, gaps);
      LinesBreaks(g, items[0] + r);
      LinesOfInterleave(items[1..], gaps[1..]);
      InterleaveStart(items[1..], gaps[1..]);
      LinesItemThen(items[0], r);
    }
  }

  /** With separators as line breaks, an interleaving is its first gap's
      line breaks, its first item, and the rest. */
  lemma InterleaveNewlines(items: seq<string>, gaps: seq<string>)
    requires |gaps| == |items| + 1 && |items| > 0 && IsItem(items[0])
    ensures SeparatorsToNewlines(Interleave(items, gaps))
            == SeparatorsToNewlines(gaps[0]) + (items[0] + SeparatorsToNewlines(Interleave(items[1..], gaps[1..])))
  {
    assert Interleave(items, gaps) == gaps[0] + items[0] + Interleave(items[1..], gaps[1..]);
    NewlinesAround(gaps[0], items[0], Interleave(items[1..], gaps[1..]));
  }

  lemma NewlinesAround(a: string, item: string, t: string)
    requires IsItem(item)
    ensures SeparatorsToNewlines(a + item + t) == SeparatorsToNewlines(a) + (item + SeparatorsToNewlines(t))
  {
    NewlinesOfConcat(a + item, t);
    NewlinesOfConcat(a, item);
    ItemUnchanged(item);
  }

  /** An item followed by nothing, or by text that starts a new line, is
      one piece. */
  lemma LinesItemThen(item: string, r: string)
    requires IsItem(item)
    requires r != [] ==> IsSeparator(r[0]) && r[0] == '\n'
    ensures Lines(item + r) == [item] + Lines(r)
  {
    if r == [] {
      assert item + r == item;
      LinesLast(item);
      assert Split([], '\n') == [[]];
    } else {
      assert item + r == item + "\n" + r[1..];
      LinesItem(item, r[1..]);
      LinesBreaks("\n", r[1..]);
      assert "\n" + r[1..] == r;
    }
  }

  /** An interleaving whose inner gaps are non-empty is empty or starts with
      a separator or with its first item. */
  lemma InterleaveStart(items: seq<string>, gaps: seq<string>)
    requires |gaps| == |items| + 1
    requires forall i :: 0 <= i < |gaps| ==> IsGap(gaps[i])
    requires forall i :: 0 < i < |items| ==> gaps[i] != []
    requires |items| > 0 ==> gaps[0] != []
    ensures var t := Interleave(items, gaps); t == [] || IsSeparator(t[0])
  {
    if gaps[0] != [] {
      assert IsSeparator(gaps[0][0]);
    }
  }

  lemma NewlinesOfConcat(a: string, b: string)
    ensures SeparatorsToNewlines(a + b) == SeparatorsToNewlines(a) + SeparatorsToNewlines(b)
  {
    var l, r := SeparatorsToNewlines(a + b), SeparatorsToNewlines(a) + SeparatorsToNewlines(b);
    forall k | 0 <= k < |l|
      ensures l[k] == r[k]
    {
      if k < |a| {
        assert (a + b)[k] == a[k];
      } else {
        assert (a + b)[k] == b[k - |a|];
      }
    }
  }

  lemma ItemUnchanged(item: string)
    requires IsItem(item)
    ensures SeparatorsToNewlines(item) == item
  {
  }

  /** Leading line breaks leave only empty pieces behind. */
  lemma {:induction false} LinesBreaks(s: string, rest: string)
    requires forall k :: 0 <= k < |s| ==> s[k] == '\n'
    ensures Lines(s + rest) == Lines(rest)
  {
    if s != [] {
      var t := s + rest;
      assert t[0] == '\n' && t[1..] == s[1..] + rest;
      var p := Split(t, '\n');
      assert p == [[]] + Split(t[1..], '\n');
      assert p[1..] == Split(t[1..], '\n');
      assert NonEmpty(p) == NonEmpty(p[1..]);
      LinesBreaks(s[1..], rest);
      assert Lines(t) == Lines(s[1..] + rest);
    } else {
      assert s + rest == rest;
    }
  }

  lemma LinesItem(item: string, rest: string)
    requires IsItem(item)
    ensures Lines(item + "\n" + rest) == [item] + Lines(rest)
  {
    assert '\n' !in item by {
      forall k | 0 <= k < |item|
        ensures item[k] != '\n'
      {
        assert !IsSeparator(item[k]);
      }
    }
    SplitPrefix(item, rest, '\n');
    var p := [item] + Split(rest, '\n');
    assert p[1..] == Split(rest, '\n');
  }

  lemma LinesLast(item: string)
    requires IsItem(item)
    ensures Lines(item) == [item]
  {
    assert '\n' !in item by {
      forall k | 0 <= k < |item|
        ensures item[k] != '\n'
      {
        assert !IsSeparator(item[k]);
      }
    }
    SplitFree(item, '\n');
    assert [item][1..] == [];
    assert NonEmpty([item]) == [item] + NonEmpty([]);
  }

  // ---------------------------------------------------------------------------
  // normalizeWhois

  /** A WHOIS field's text, or "" when the field is missing. */
  function Field(whois: map<string, string>, key: string): string {
    if key in whois then whois[key] else ""
  }

  /** The location line: "country, city", or whichever of the two is there. */
  function Location(country: string, city: string): (loc: string)
    ensures loc == "" <==> country == "" && city == ""
    ensures country != "" && city != "" ==> loc == country + ", " + city
    ensures country == "" ==> loc == city
    ensures city == "" ==> loc == country
  {
    if city != "" && country != "" then country + ", " + city
    else if city != "" then city
    else country
  }

  /** `normalizeWhois`: an empty record is returned as it is; otherwise
      `city` and `country` are folded into one `location` field, and every
      other field is kept, a `location` field of the record winning over
      the computed one. */
  function NormalizeWhois(whois: map<string, string>): (r: map<string, string>)
    ensures whois == map[] ==> r == whois
    ensures whois != map[] ==> "city" !in r && "country" !in r
    ensures whois != map[] ==> forall k :: k in whois && k != "city" && k != "country" ==> k in r && r[k] == whois[k]
    ensures whois != map[] ==>
              var loc := Location(Field(whois, "country"), Field(whois, "city"));
              && r.Keys == whois.Keys - {"city", "country"} + (if loc != "" then {"location"} else {})
              && ("location" !in whois && loc != "" ==> r["location"] == loc)
  {
    if whois == map[] then whois
    else
      var loc := Location(Field(whois, "country"), Field(whois, "city"));
      var values := whois - {"city", "country"};
      if loc != "" then map["location" := loc] + values else values
  }

  /** A record with both parts shows "country, city". */
  lemma WhoisExample()
    ensures NormalizeWhois(map["country" := "DE", "city" := "Berlin", "orgname" := "Org"])
            == map["location" := "DE, Berlin", "orgname" := "Org"]
  {
    var w := map["country" := "DE", "city" := "Berlin", "orgname" := "Org"];
    assert Field(w, "country") == "DE" && Field(w, "city") == "Berlin";
    assert Location("DE", "Berlin") == "DE, Berlin";
    assert w - {"city", "country"} == map["orgname" := "Org"];
  }

  // ---------------------------------------------------------------------------
  // getParamsForClientsSearch

  /** `item[param]`, `undefined` when the item has no such field. */
  function Prop(item: map<string, Value>, param: string): Value {
    if param in item then item[param] else Undefined
  }

  predicate Distinct<T(==)>(s: seq<T>) {
    forall i, j :: 0 <= i < j < |s| ==> s[i] != s[j]
  }

  /** The position of the first `x` in `s`. */
  function FirstIndex<T(==)>(s: seq<T>, x: T): (i: nat)
    requires x in s
    ensures i < |s| && s[i] == x && x !in s[..i]
  {
    if s[0] == x then 0
    else
      var i := FirstIndex(s[1..], x) + 1;
      assert s[..i] == [s[0]] + s[1..][..i - 1];
      i
  }

  /** A position holding `x` with no `x` before it is the first one. */
  lemma FirstIndexAt<T>(s: seq<T>, x: T, i: nat)
    requires i < |s| && s[i] == x && x !in s[..i]
    ensures FirstIndex(s, x) == i
  {
    var k := FirstIndex(s, x);
    forall m | 0 <= m < i
      ensures s[m] != x
    {
      assert s[..i][m] == s[m];
    }
    forall m | 0 <= m < k
      ensures s[m] != x
    {
      assert s[..k][m] == s[m];
    }
  }

  /** Appending does not move the first occurrence of a value already there. */
  lemma FirstIndexPrefix<T>(a: seq<T>, b: seq<T>, x: T)
    requires x in a
    ensures FirstIndex(a + b, x) == FirstIndex(a, x)
  {
    var i := FirstIndex(a, x);
    assert (a + b)[..i] == a[..i];
    FirstIndexAt(a + b, x, i);
  }

  /** lodash `uniq`: the values in order of first appearance, each once. */
  function Uniq(s: seq<Value>): (u: seq<Value>)
    ensures Distinct(u)
    ensures forall x :: x in u <==> x in s
    ensures forall i, j :: 0 <= i < j < |u| ==> FirstIndex(s, u[i]) < FirstIndex(s, u[j])
    ensures |u| <= |s|
  {
    if s == [] then []
    else
      var u := Uniq(s[..|s| - 1]);
      assert forall i :: 0 <= i < |u| ==> u[i] in u;
      if s[|s| - 1] in s[..|s| - 1] then
        UniqKeep(s, u);
        u
      else
        UniqExtend(s, u);
        u + [s[|s| - 1]]
  }

  /** A value of the list without its last element is found at the same
      first position in the whole list. */
  lemma FirstIndexInit(s: seq<Value>, x: Value)
    requires s != [] && x in s[..|s| - 1]
    ensures FirstIndex(s, x) == FirstIndex(s[..|s| - 1], x) < |s| - 1
  {
    assert s == s[..|s| - 1] + [s[|s| - 1]];
    FirstIndexPrefix(s[..|s| - 1], [s[|s| - 1]], x);
  }

  /** A step of `Uniq` whose last value was seen before adds nothing. */
  lemma UniqKeep(s: seq<Value>, u: seq<Value>)
    requires s != [] && s[|s| - 1] in s[..|s| - 1]
    requires forall x :: x in u <==> x in s[..|s| - 1]
    requires forall i :: 0 <= i < |u| ==> u[i] in s[..|s| - 1]
    requires forall i, j :: 0 <= i < j < |u| ==> FirstIndex(s[..|s| - 1], u[i]) < FirstIndex(s[..|s| - 1], u[j])
    ensures forall x :: x in u <==> x in s
    ensures forall i, j :: 0 <= i < j < |u| ==> FirstIndex(s, u[i]) < FirstIndex(s, u[j])
  {
    assert s == s[..|s| - 1] + [s[|s| - 1]];
    forall i, j | 0 <= i < j < |u|
      ensures FirstIndex(s, u[i]) < FirstIndex(s, u[j])
    {
      FirstIndexInit(s, u[i]);
      FirstIndexInit(s, u[j]);
    }
  }

  /** A step of `Uniq` whose last value is new appends it. */
  lemma UniqExtend(s: seq<Value>, u: seq<Value>)
    requires s != [] && s[|s| - 1] !in s[..|s| - 1]
    requires Distinct(u) && forall x :: x in u <==> x in s[..|s| - 1]
    requires forall i :: 0 <= i < |u| ==> u[i] in s[..|s| - 1]
    requires forall i, j :: 0 <= i < j < |u| ==> FirstIndex(s[..|s| - 1], u[i]) < FirstIndex(s[..|s| - 1], u[j])
    ensures var u' := u + [s[|s| - 1]];
            && Distinct(u')
            && (forall x :: x in u' <==> x in s)
            && (forall i, j :: 0 <= i < j < |u'| ==> FirstIndex(s, u'[i]) < FirstIndex(s, u'[j]))
  {
    var init, last := s[..|s| - 1], s[|s| - 1];
    var u' := u + [last];
    assert s == init + [last];
    assert s[..|init|] == init;
    FirstIndexAt(s, last, |init|);
    forall i, j | 0 <= i < j < |u'|
      ensures u'[i] != u'[j] && FirstIndex(s, u'[i]) < FirstIndex(s, u'[j])
    {
      assert u'[i] == u[i];
      FirstIndexInit(s, u[i]);
      if j < |u| {
        assert u'[j] == u[j];
        FirstIndexInit(s, u[j]);
      }
    }
  }



  /** A list without repeats is its own `uniq`. */
  lemma {:induction false} UniqDistinct(s: seq<Value>)
    requires Distinct(s)
    ensures Uniq(s) == s
  {
    if s != [] {
      UniqDistinct(s[..|s| - 1]);
      assert s[|s| - 1] !in s[..|s| - 1];
    }
  }

  /** The key of the `i`-th value: `ip0`, `ip1`, ... */
  function SearchKey(i: nat): string {
    "ip" + NatToString(i)
  }

  lemma SearchKeyInjective(i: nat, j: nat)
    requires SearchKey(i) == SearchKey(j)
    ensures i == j
  {
    assert SearchKey(i)[2..] == NatToString(i);
    assert SearchKey(j)[2..] == NatToString(j);
    NatToStringInjective(i, j);
  }

  /** Different positions have different keys. */
  ghost predicate Injective(key: nat -> string) {
    forall i: nat, j: nat :: key(i) == key(j) ==> i == j
  }

  lemma SearchKeyIsInjective()
    ensures Injective(SearchKey)
  {
    forall i: nat, j: nat | SearchKey(i) == SearchKey(j)
      ensures i == j
    {
      SearchKeyInjective(i, j);
    }
  }

  /** The `reduce` that numbers the values: `{key(0): u[0], key(1): u[1], ...}`. */
  function NumberValues(u: seq<Value>, key: nat -> string): (m: map<string, Value>)
  {
    if u == [] then map[] else NumberValues(u[..|u| - 1], key)[key(|u| - 1) := u[|u| - 1]]
  }

  /** The numbered map has exactly the keys of the positions, each with
      its value. */
  lemma {:induction false} NumberValuesSpec(u: seq<Value>, key: nat -> string)
    requires Injective(key)
    ensures forall k :: k in NumberValues(u, key) <==> exists i :: 0 <= i < |u| && k == key(i)
    ensures forall i :: 0 <= i < |u| ==> key(i) in NumberValues(u, key) && NumberValues(u, key)[key(i)] == u[i]
  {
    if u != [] {
      var n := |u| - 1;
      var m := NumberValues(u[..n], key);
      NumberValuesSpec(u[..n], key);
      var m' := NumberValues(u, key);
      assert m' == m[key(n) := u[n]];
      forall i | 0 <= i < n
        ensures key(i) in m' && m'[key(i)] == u[i]
      {
        assert key(i) != key(n);
        assert m[key(i)] == u[..n][i];
      }
      forall k | k in m'
        ensures exists i :: 0 <= i < |u| && k == key(i)
      {
        if k != key(n) {
          assert k in m;
          var i :| 0 <= i < n && k == key(i);
        }
      }
    }
  }

  /** The values of field `param`, in order. */
  function Props(data: seq<map<string, Value>>, param: string): (vals: seq<Value>)
    ensures |vals| == |data| && forall i :: 0 <= i < |data| ==> vals[i] == Prop(data[i], param)
  {
    seq(|data|, i requires 0 <= i < |data| => Prop(data[i], param))
  }

  /** `getParamsForClientsSearch`: the distinct values of field `param`,
      in order of first appearance, under the keys `ip0`, `ip1`, ... */
  function GetParamsForClientsSearch(data: seq<map<string, Value>>, param: string): (m: map<string, Value>)
    ensures var u := Uniq(Props(data, param));
            && (forall k :: k in m <==> exists i :: 0 <= i < |u| && k == SearchKey(i))
            && (forall i :: 0 <= i < |u| ==> SearchKey(i) in m && m[SearchKey(i)] == u[i])
  {
    SearchKeyIsInjective();
    NumberValuesSpec(Uniq(Props(data, param)), SearchKey);
    NumberValues(Uniq(Props(data, param)), SearchKey)
  }

  /** Every value found in the data is the value of exactly one key, and
      no two keys share a value. */
  lemma SearchParamsComplete(data: seq<map<string, Value>>, param: string)
    ensures var m := GetParamsForClientsSearch(data, param);
            && (forall i :: 0 <= i < |data| ==> exists k :: k in m && m[k] == Prop(data[i], param))
            && (forall k, l :: k in m && l in m && k != l ==> m[k] != m[l])
            && (forall k :: k in m ==> exists i :: 0 <= i < |data| && m[k] == Prop(data[i], param))
  {
    var vals := Props(data, param);
    var u := Uniq(vals);
    var m := GetParamsForClientsSearch(data, param);
    forall i | 0 <= i < |data|
      ensures exists k :: k in m && m[k] == Prop(data[i], param)
    {
      assert vals[i] in u;
      var j :| 0 <= j < |u| && u[j] == vals[i];
      assert SearchKey(j) in m && m[SearchKey(j)] == vals[i];
    }
    forall k, l | k in m && l in m && k != l
      ensures m[k] != m[l]
    {
      var i :| 0 <= i < |u| && k == SearchKey(i);
      var j :| 0 <= j < |u| && l == SearchKey(j);
      assert i != j;
      assert m[k] == u[i] && m[l] == u[j];
    }
    forall k | k in m
      ensures exists i :: 0 <= i < |data| && m[k] == Prop(data[i], param)
    {
      var j :| 0 <= j < |u| && k == SearchKey(j);
      assert m[k] == u[j];
      assert u[j] in vals;
      var i :| 0 <= i < |vals| && vals[i] == u[j];
    }
  }

  /** Two clients with one IP and one with another: two parameters, in
      order. */
  lemma SearchParamsExample()
    ensures GetParamsForClientsSearch(
              [map["ip" := Str("1.2.3.4")], map["ip" := Str("1.2.3.5")], map["ip" := Str("1.2.3.4")]], "ip")
            == map["ip0" := Str("1.2.3.4"), "ip1" := Str("1.2.3.5")]
  {
    var data := [map["ip" := Str("1.2.3.4")], map["ip" := Str("1.2.3.5")], map["ip" := Str("1.2.3.4")]];
    var a, b := Str("1.2.3.4"), Str("1.2.3.5");
    assert Props(data, "ip") == [a, b, a];
    UniqExample();
    assert Uniq(Props(data, "ip")) == [a, b];
    SearchKeyExamples();
    NumberTwo(a, b, SearchKey);
    assert GetParamsForClientsSearch(data, "ip") == NumberValues([a, b], SearchKey);
  }

  lemma NumberTwo(a: Value, b: Value, key: nat -> string)
    ensures NumberValues([a, b], key) == map[key(0) := a, key(1) := b]
  {
    assert [a, b][..1] == [a];
    assert NumberValues([a], key) == map[key(0) := a] by {
      assert [a][..0] == [];
    }
  }

  lemma UniqExample()
    ensures Uniq([Str("1.2.3.4"), Str("1.2.3.5"), Str("1.2.3.4")]) == [Str("1.2.3.4"), Str("1.2.3.5")]
  {
    var vals := [Str("1.2.3.4"), Str("1.2.3.5"), Str("1.2.3.4")];
    assert vals[..2][..1] == [Str("1.2.3.4")];
    assert Uniq(vals[..2][..1]) == [Str("1.2.3.4")];
    assert Uniq(vals[..2]) == [Str("1.2.3.4"), Str("1.2.3.5")];
  }

  lemma SearchKeyExamples()
    ensures SearchKey(0) == "ip0" && SearchKey(1) == "ip1"
  {
  }

  // ---------------------------------------------------------------------------
  // normalizeFilteringStatus

  /** A filter list as the server describes it. */
  datatype Filter = Filter(id: Value, url: Value, enabled: Value, lastUpdated: Value, name: Value, rulesCount: Value)

  /** A filter list as the console shows it. */
  datatype FilterView = FilterView(id: Value, url: Value, enabled: Value, lastUpdated: string, name: Value, rulesCount: Value)

  /** The filtering status as the server sends it: a missing filter list
      (`undefined` or `null`) is `None`, and user rules that are not an
      array are `None`. */
  datatype Status = Status(enabled: Value, filters: Option<seq<Filter>>, userRules: Option<seq<Value>>, interval: Value)

  /** The filtering status as the console keeps it. */
  datatype StatusView = StatusView(enabled: Value, userRules: string, filters: seq<FilterView>, interval: Value)

  const DefaultName := "Default name"

  /** The en dash shown for a list never updated. */
  const NeverUpdated := "–"

  /** One filter list: a readable update time (through `formatDateTime`,
      which the model takes as a parameter), and defaults for a missing
      name or rule count. Defaults apply to `undefined` only, as in a
      destructuring default; `null` is kept. */
  function NormalizeFilter(formatDateTime: Value -> string, f: Filter): (v: FilterView)
    ensures v.id == f.id && v.url == f.url && v.enabled == f.enabled
    ensures Truthy(f.lastUpdated) ==> v.lastUpdated == formatDateTime(f.lastUpdated)
    ensures !Truthy(f.lastUpdated) ==> v.lastUpdated == NeverUpdated
    ensures v.name == if f.name.Undefined? then Str(DefaultName) else f.name
    ensures v.rulesCount == if f.rulesCount.Undefined? then Num(0) else f.rulesCount
  {
    FilterView(
      f.id, f.url, f.enabled,
      if Truthy(f.lastUpdated) then formatDateTime(f.lastUpdated) else NeverUpdated,
      if f.name.Undefined? then Str(DefaultName) else f.name,
      if f.rulesCount.Undefined? then Num(0) else f.rulesCount)
  }

  /** An element of an array being joined: `undefined` and `null` become
      the empty string. */
  function JoinElement(v: Value): string {
    if v.Undefined? || v.Null? then "" else ToString(v)
  }

  /** The elements of an array as `join` prints them. */
  function JoinElements(list: seq<Value>): (texts: seq<string>)
    ensures |texts| == |list| && forall i :: 0 <= i < |list| ==> texts[i] == JoinElement(list[i])
  {
    seq(|list|, i requires 0 <= i < |list| => JoinElement(list[i]))
  }

  /** `normalizeFilteringStatus`. */
  function NormalizeFilteringStatus(formatDateTime: Value -> string, s: Status): (v: StatusView)
    ensures v.enabled == s.enabled && v.interval == s.interval
    ensures s.filters.None? ==> v.filters == []
    ensures s.filters.Some? ==> |v.filters| == |s.filters.value|
    ensures s.filters.Some? ==>
              forall i :: 0 <= i < |v.filters| ==> v.filters[i] == NormalizeFilter(formatDateTime, s.filters.value[i])
    ensures s.userRules.None? ==> v.userRules == ""
    ensures s.userRules.Some? ==>
              v.userRules == Join(JoinElements(s.userRules.value), '\n')
  {
    var filters := match s.filters
      case None => []
      case Some(list) => seq(|list|, i requires 0 <= i < |list| => NormalizeFilter(formatDateTime, list[i]));
    var rules := match s.userRules
      case None => ""
      case Some(list) => Join(JoinElements(list), '\n');
    StatusView(s.enabled, rules, filters, interval := s.interval)
  }

  /** User rules come back line by line: splitting the joined text on line
      breaks gives the rules again, when there is at least one and none
      contains a line break. */
  lemma UserRulesRoundTrip(formatDateTime: Value -> string, s: Status, rules: seq<string>)
    requires |rules| > 0 && forall i :: 0 <= i < |rules| ==> '\n' !in rules[i]
    requires s.userRules == Some(seq(|rules|, i requires 0 <= i < |rules| => Str(rules[i])))
    ensures Split(NormalizeFilteringStatus(formatDateTime, s).userRules, '\n') == rules
  {
    var list := s.userRules.value;
    assert JoinElements(list) == rules;
    SplitJoin(rules, '\n');
  }
}
