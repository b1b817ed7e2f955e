/**
  The level list and high-score table (Main/LevelManager.cs). The score
  dictionary is an association list in insertion order with unique names;
  the score file is its sequence of lines, one "name score" per entry. The
  file system itself (existence check, reader, writer) is left to the
  caller: loading takes the lines read, saving returns the lines written.
 */
module LevelManager {
  import opened Optional

  const INT32_MIN: int := -0x8000_0000
  const INT32_MAX: int := 0x7FFF_FFFF

  datatype Entry = Entry(name: string, score: int)

  /** No name occurs twice, as in a dictionary. */
  predicate Valid(t: seq<Entry>)
  {
    forall i, j :: 0 <= i < j < |t| ==> t[i].name != t[j].name
  }

  /** The dictionary lookup: the score stored under the name, searching from the newest entry. */
  function Lookup(t: seq<Entry>, name: string): Option<int>
    decreases |t|
  {
    if |t| == 0 then None
    else if t[|t| - 1].name == name then Some(t[|t| - 1].score)
    else Lookup(t[..|t| - 1], name)
  }

  /** Lookup fails exactly when no entry has the name, and succeeds with the score of an entry that has it. */
  lemma {:induction false} LookupMeans(t: seq<Entry>, name: string)
    ensures Lookup(t, name).None? <==> forall i :: 0 <= i < |t| ==> t[i].name != name
    ensures Lookup(t, name).Some? ==> exists i :: 0 <= i < |t| && t[i] == Entry(name, Lookup(t, name).value)
    decreases |t|
  {
    if |t| > 0 && t[|t| - 1].name != name {
      LookupMeans(t[..|t| - 1], name);
      assert forall i :: 0 <= i < |t| - 1 ==> t[..|t| - 1][i] == t[i];
    }
  }

  /** In a valid table the entry with a given name is the only one. */
  lemma {:induction false} LookupValid(t: seq<Entry>, i: int)
    requires Valid(t) && 0 <= i < |t|
    ensures Lookup(t, t[i].name) == Some(t[i].score)
    decreases |t|
  {
    if i < |t| - 1 {
      assert t[|t| - 1].name != t[i].name;
      assert Valid(t[..|t| - 1]);
      LookupValid(t[..|t| - 1], i);
    }
  }

  /** The dictionary store: overwrite in place if present, otherwise append. */
  function Put(t: seq<Entry>, name: string, score: int): (r: seq<Entry>)
    ensures Lookup(r, name) == Some(score)
    ensures forall k :: k != name ==> Lookup(r, k) == Lookup(t, k)
    ensures Lookup(t, name).None? ==> r == t + [Entry(name, score)]
    ensures Lookup(t, name).Some? ==> |r| == |t|
    decreases |t|
  {
    if Lookup(t, name).None? then
      var res := t + [Entry(name, score)];
      assert res[..|res| - 1] == t;
      res
    else if t[|t| - 1].name == name then t[..|t| - 1] + [Entry(name, score)]
    else
      var init := t[..|t| - 1];
      var last := t[|t| - 1];
      var res := Put(init, name, score) + [last];
      assert res[..|res| - 1] == Put(init, name, score);
      assert forall k :: Lookup(res, k) == if k == last.name then Some(last.score) else Lookup(Put(init, name, score), k);
      assert forall k :: Lookup(t, k) == if k == last.name then Some(last.score) else Lookup(init, k);
      res
  }

  /** Appending an entry whose name is new keeps names unique. */
  lemma AppendKeepsValid(t: seq<Entry>, e: Entry)
    requires Valid(t)
    requires forall i :: 0 <= i < |t| ==> t[i].name != e.name
    ensures Valid(t + [e])
  {
    var r := t + [e];
    forall i, j | 0 <= i < j < |r|
      ensures r[i].name != r[j].name
    {
      assert r[i] == t[i];
      if j < |t| {
        assert r[j] == t[j];
      }
    }
  }

  /** Storing keeps names unique. */
  lemma {:induction false} PutKeepsValid(t: seq<Entry>, name: string, score: int)
    ensures Valid(t) ==> Valid(Put(t, name, score))
    decreases |t|
  {
    if Valid(t) {
      if Lookup(t, name).None? {
        LookupMeans(t, name);
        AppendKeepsValid(t, Entry(name, score));
      } else {
        var init := t[..|t| - 1];
        var last := t[|t| - 1];
        assert Valid(init);
        assert forall i :: 0 <= i < |init| ==> init[i].name != last.name by {
          forall i | 0 <= i < |init| ensures init[i].name != last.name {
            assert init[i] == t[i];
          }
        }
        if last.name == name {
          AppendKeepsValid(init, Entry(name, score));
        } else {
          PutKeepsValid(init, name, score);
          var p := Put(init, name, score);
          LookupMeans(init, last.name);
          assert Lookup(p, last.name) == Lookup(init, last.name);
          LookupMeans(p, last.name);
          AppendKeepsValid(p, last);
        }
      }
    }
  }

  datatype Manager<L> = Manager(levels: seq<L>, scores: seq<Entry>)

  /** AddLevel: the level is appended; the name gets score 0 only if it has none. */
  function AddLevel<L>(m: Manager<L>, level: L, name: string): (r: Manager<L>)
    ensures r.levels == m.levels + [level]
    ensures Lookup(r.scores, name) == if Lookup(m.scores, name).Some? then Lookup(m.scores, name) else Some(0)
    ensures forall k :: k != name ==> Lookup(r.scores, k) == Lookup(m.scores, k)
    ensures Valid(m.scores) ==> Valid(r.scores)
  {
    PutKeepsValid(m.scores, name, 0);
    Manager(m.levels + [level], if Lookup(m.scores, name).None? then Put(m.scores, name, 0) else m.scores)
  }

  /** GetHighestScore: the stored score, 0 for an unknown level. */
  function GetHighestScore<L>(m: Manager<L>, name: string): (r: int)
    ensures Lookup(m.scores, name).None? ==> r == 0
    ensures Lookup(m.scores, name).Some? ==> r == Lookup(m.scores, name).value
  {
    match Lookup(m.scores, name)
    case None => 0
    case Some(s) => s
  }

  /**
    SetHighestScore: stores the score when the level is unknown or the
    score beats the stored one, and then saves; the second component is the
    file written, None when nothing was written.
   */
  function SetHighestScore<L>(m: Manager<L>, name: string, score: int): (r: (Manager<L>, Option<seq<string>>))
    ensures r.0.levels == m.levels
    ensures forall k :: k != name ==> Lookup(r.0.scores, k) == Lookup(m.scores, k)
    ensures (Lookup(m.scores, name).None? || score > Lookup(m.scores, name).value) ==>
      Lookup(r.0.scores, name) == Some(score) && r.1 == Some(SaveScores(r.0.scores))
    ensures !(Lookup(m.scores, name).None? || score > Lookup(m.scores, name).value) ==> r == (m, None)
    ensures Valid(m.scores) ==> Valid(r.0.scores)
  {
    PutKeepsValid(m.scores, name, score);
    if Lookup(m.scores, name).None? || score > Lookup(m.scores, name).value then
      var scores := Put(m.scores, name, score);
      (Manager(m.levels, scores), Some(SaveScores(scores)))
    else (m, None)
  }

  /** A stored score never decreases. */
  lemma StoredScoreNeverDecreases<L>(m: Manager<L>, name: string, score: int, k: string)
    requires Lookup(m.scores, k).Some?
    ensures Lookup(SetHighestScore(m, name, score).0.scores, k).Some?
    ensures Lookup(SetHighestScore(m, name, score).0.scores, k).value >= Lookup(m.scores, k).value
  {
  }

  // ---------------------------------------------------------------- numbers as text

  predicate IsDigit(c: char) { '0' <= c <= '9' }

  function DigitValue(c: char): (r: nat)
    requires IsDigit(c)
    ensures r < 10
  {
    (c as int - '0' as int)
  }

  function DigitChar(d: nat): (c: char)
    requires d < 10
    ensures IsDigit(c) && DigitValue(c) == d
  {
    ('0' as int + d) as char
  }

  /** The decimal digits of n, most significant first, without leading zeros. */
  function NatToDigits(n: nat): (r: string)
    ensures |r| >= 1 && forall i :: 0 <= i < |r| ==> IsDigit(r[i])
    decreases n
  {
    if n < 10 then [DigitChar(n)] else NatToDigits(n / 10) + [DigitChar(n % 10)]
  }

  /** The value of a string of digits. */
  function DigitsValue(s: string): nat
    requires forall i :: 0 <= i < |s| ==> IsDigit(s[i])
    decreases |s|
  {
    if |s| == 0 then 0 else DigitsValue(s[..|s| - 1]) * 10 + DigitValue(s[|s| - 1])
  }

  lemma {:induction false} DigitsRoundTrip(n: nat)
    ensures DigitsValue(NatToDigits(n)) == n
    decreases n
  {
    if n >= 10 {
      DigitsRoundTrip(n / 10);
      var s := NatToDigits(n);
      assert s[..|s| - 1] == NatToDigits(n / 10);
    }
  }

  /** Int32.ToString: a minus sign for negatives, then the digits. */
  function IntToString(n: int): (r: string)
    ensures |r| >= 1 && IsDigit(r[|r| - 1])
    ensures n >= 0 ==> IsDigit(r[0])
    ensures n < 0 ==> r[0] == '-'
    ensures forall i :: 0 < i < |r| ==> IsDigit(r[i])
  {
    if n < 0 then "-" + NatToDigits(-n) else NatToDigits(n)
  }

  /** The white-space characters a number may be surrounded by: tab, line feed, vertical tab, form feed, carriage return, space. */
  predicate IsWhite(c: char) { c == ' ' || '\t' <= c <= '\r' }

  function TrimStart(s: string): (r: string)
    ensures |r| <= |s|
    decreases |s|
  {
    if |s| > 0 && IsWhite(s[0]) then TrimStart(s[1..]) else s
  }

  function TrimEnd(s: string): (r: string)
    ensures |r| <= |s|
    decreases |s|
  {
    if |s| > 0 && IsWhite(s[|s| - 1]) then TrimEnd(s[..|s| - 1]) else s
  }

  predicate AllDigits(s: string) { forall i :: 0 <= i < |s| ==> IsDigit(s[i]) }

  /**
    The number once the surrounding white space is gone: an optional
    leading sign, at least one digit, and a value that fits in 32 bits;
    None otherwise.
   */
  function ParseTrimmed(t: string): (r: Option<int>)
    ensures r.Some? ==> INT32_MIN <= r.value <= INT32_MAX
  {
    var negative := |t| > 0 && t[0] == '-';
    var body := if |t| > 0 && (t[0] == '-' || t[0] == '+') then t[1..] else t;
    if |body| == 0 || !AllDigits(body) then None
    else
      var v := if negative then -(DigitsValue(body) as int) else DigitsValue(body) as int;
      if INT32_MIN <= v <= INT32_MAX then Some(v) else None
  }

  /** int.TryParse with the default integer style: white space may surround the number. */
  function TryParseInt(s: string): (r: Option<int>)
    ensures r.Some? ==> INT32_MIN <= r.value <= INT32_MAX
  {
    ParseTrimmed(TrimEnd(TrimStart(s)))
  }

  /** Text that neither starts nor ends with white space is left alone by the trims. */
  lemma TrimsKeep(s: string)
    requires |s| >= 1 && !IsWhite(s[0]) && !IsWhite(s[|s| - 1])
    ensures TrimEnd(TrimStart(s)) == s
  {
  }

  /** A plain digit string that fits reads back as its value. */
  lemma ParseUnsigned(body: string)
    requires |body| >= 1 && AllDigits(body) && DigitsValue(body) <= INT32_MAX
    ensures TryParseInt(body) == Some(DigitsValue(body) as int)
  {
    TrimsKeep(body);
  }

  /** Once trimmed, a minus sign before a digit string that fits is the negated value. */
  lemma ParseTrimmedNegative(body: string)
    requires |body| >= 1 && AllDigits(body) && DigitsValue(body) <= -INT32_MIN
    ensures ParseTrimmed("-" + body) == Some(-(DigitsValue(body) as int))
  {
    var t := "-" + body;
    assert t[0] == '-';
    assert t[1..] == body;
  }

  /** A minus sign before a digit string that fits reads back as the negated value. */
  lemma ParseNegative(body: string)
    requires |body| >= 1 && AllDigits(body) && DigitsValue(body) <= -INT32_MIN
    ensures TryParseInt("-" + body) == Some(-(DigitsValue(body) as int))
  {
    var s := "-" + body;
    assert s[0] == '-' && s[|s| - 1] == body[|body| - 1];
    TrimsKeep(s);
    ParseTrimmedNegative(body);
  }

  /** Every 32-bit integer reads back from its text. */
  lemma ParseIntToString(n: int)
    requires INT32_MIN <= n <= INT32_MAX
    ensures TryParseInt(IntToString(n)) == Some(n)
  {
    if n < 0 {
      DigitsRoundTrip(-n);
      ParseNegative(NatToDigits(-n));
    } else {
      DigitsRoundTrip(n);
      ParseUnsigned(NatToDigits(n));
    }
  }

  // ---------------------------------------------------------------- the score file

  /** String.Split on one separator: every occurrence splits, empty parts are kept. */
  function Split(s: string, sep: char): (r: seq<string>)
    ensures |r| >= 1
    decreases |s|
  {
    if |s| == 0 then [""]
    else
      var rest := Split(s[1..], sep);
      if s[0] == sep then [""] + rest else [[s[0]] + rest[0]] + rest[1..]
  }

  lemma {:induction false} SplitNoSep(s: string, sep: char)
    requires sep !in s
    ensures Split(s, sep) == [s]
    decreases |s|
  {
    if |s| > 0 {
      SplitNoSep(s[1..], sep);
      assert [s[0]] + s[1..] == s;
    }
  }

  lemma {:induction false} SplitAtFirst(a: string, sep: char, b: string)
    requires sep !in a
    ensures Split(a + [sep] + b, sep) == [a] + Split(b, sep)
    decreases |a|
  {
    var s := a + [sep] + b;
    if |a| == 0 {
      assert s[1..] == b;
    } else {
      assert s[1..] == a[1..] + [sep] + b;
      SplitAtFirst(a[1..], sep, b);
      assert [a[0]] + a[1..] == a;
    }
  }

  /** One line of the file: the name, one space, then the score's digits with no space in them. */
  function FormatLine(e: Entry): (r: string)
    ensures |r| > |e.name| + 1
    ensures r[..|e.name|] == e.name && r[|e.name|] == ' '
    ensures forall i :: |e.name| < i < |r| ==> r[i] != ' '
  {
    e.name + " " + IntToString(e.score)
  }

  /** SaveScores: one line per entry, in the dictionary's order. */
  function SaveScores(t: seq<Entry>): (r: seq<string>)
    ensures |r| == |t|
    ensures forall i :: 0 <= i < |t| ==> r[i] == FormatLine(t[i])
  {
    seq(|t|, i requires 0 <= i < |t| => FormatLine(t[i]))
  }

  /** A line is accepted iff it splits into exactly two parts and the second is an integer. */
  function ParseLine(line: string): (r: Option<Entry>)
    ensures r.Some? <==> |Split(line, ' ')| == 2 && TryParseInt(Split(line, ' ')[1]).Some?
    ensures r.Some? ==> r.value == Entry(Split(line, ' ')[0], TryParseInt(Split(line, ' ')[1]).value)
  {
    var parts := Split(line, ' ');
    if |parts| == 2 then
      match TryParseInt(parts[1])
      case Some(v) => Some(Entry(parts[0], v))
      case None => None
    else None
  }

  /** A formatted entry parses back, for a name without spaces and a 32-bit score. */
  lemma ParseFormatLine(e: Entry)
    requires ' ' !in e.name && INT32_MIN <= e.score <= INT32_MAX
    ensures ParseLine(FormatLine(e)) == Some(e)
  {
    var num := IntToString(e.score);
    assert ' ' !in num by {
      assert forall i :: 0 <= i < |num| ==> num[i] == '-' || IsDigit(num[i]) by {
        if e.score < 0 { assert num == "-" + NatToDigits(-e.score); }
      }
    }
    SplitAtFirst(e.name, ' ', num);
    assert FormatLine(e) == e.name + [' '] + num;
    SplitNoSep(num, ' ');
    ParseIntToString(e.score);
  }

  /** The loop of LoadScores over the lines, storing each accepted line. */
  function LoadLines(t: seq<Entry>, lines: seq<string>): (r: seq<Entry>)
    ensures Valid(t) ==> Valid(r)
    decreases |lines|
  {
    if |lines| == 0 then t
    else
      var prev := LoadLines(t, lines[..|lines| - 1]);
      match ParseLine(lines[|lines| - 1])
      case Some(e) => PutKeepsValid(prev, e.name, e.score); Put(prev, e.name, e.score)
      case None => prev
  }

  /** LoadScores: nothing when the file does not exist, otherwise every line in order. */
  function LoadScores<L>(m: Manager<L>, fileExists: bool, lines: seq<string>): (r: Manager<L>)
    ensures !fileExists ==> r == m
    ensures fileExists ==> r.scores == LoadLines(m.scores, lines)
    ensures r.levels == m.levels && (Valid(m.scores) ==> Valid(r.scores))
  {
    if !fileExists then m else Manager(m.levels, LoadLines(m.scores, lines))
  }

  /** Reference: the score of the last accepted line for this name, or the prior value if none. */
  function LastScore(lines: seq<string>, name: string, prior: Option<int>): Option<int>
    decreases |lines|
  {
    if |lines| == 0 then prior
    else
      var p := ParseLine(lines[|lines| - 1]);
      if p.Some? && p.value.name == name then Some(p.value.score)
      else LastScore(lines[..|lines| - 1], name, prior)
  }

  /** Later lines override earlier ones; names on no accepted line keep their prior score. */
  lemma {:induction false} LaterLinesOverride(t: seq<Entry>, lines: seq<string>, name: string)
    ensures Lookup(LoadLines(t, lines), name) == LastScore(lines, name, Lookup(t, name))
    decreases |lines|
  {
    if |lines| > 0 {
      LaterLinesOverride(t, lines[..|lines| - 1], name);
    }
  }

  /** Saving a valid table of space-free names and 32-bit scores and loading it into an empty table gives it back. */
  lemma {:induction false} SaveThenLoad(t: seq<Entry>)
    requires Valid(t)
    requires forall i :: 0 <= i < |t| ==> ' ' !in t[i].name && INT32_MIN <= t[i].score <= INT32_MAX
    ensures LoadLines([], SaveScores(t)) == t
    decreases |t|
  {
    if |t| > 0 {
      var n := |t| - 1;
      var init := t[..n];
      assert Valid(init);
      SaveThenLoad(init);
      var lines := SaveScores(t);
      assert lines[..n] == SaveScores(init);
      ParseFormatLine(t[n]);
      LookupMeans(init, t[n].name);
      assert Lookup(init, t[n].name).None?;
      assert init + [t[n]] == t;
    }
  }

  // ---------------------------------------------------------------- the status line

  const STATUS_PREFIX: string := "Highest score: "

  /** GetLevelStatus: "Incomplete" for a zero or unknown score, otherwise the score after a fixed prefix. */
  function GetLevelStatus<L>(m: Manager<L>, name: string): (r: string)
    ensures r == "Incomplete" <==> GetHighestScore(m, name) == 0
    ensures GetHighestScore(m, name) != 0 ==>
      |r| > |STATUS_PREFIX| && r[..|STATUS_PREFIX|] == STATUS_PREFIX && r[|STATUS_PREFIX|..] == IntToString(GetHighestScore(m, name))
  {
    var score := GetHighestScore(m, name);
    if score == 0 then "Incomplete"
    else
      var r := STATUS_PREFIX + IntToString(score);
      assert r[0] != "Incomplete"[0];
      r
  }

  /** The score shown in a status line reads back as the stored score. */
  lemma StatusReadsBack<L>(m: Manager<L>, name: string)
    requires GetHighestScore(m, name) != 0
    requires INT32_MIN <= GetHighestScore(m, name) <= INT32_MAX
    ensures TryParseInt(GetLevelStatus(m, name)[|STATUS_PREFIX|..]) == Some(GetHighestScore(m, name))
  {
    ParseIntToString(GetHighestScore(m, name));
  }

  /** Once a positive score has been offered for a level, its status is never "Incomplete". */
  lemma PositiveScoreCompletes<L>(m: Manager<L>, name: string, score: int)
    requires score > 0
    ensures GetLevelStatus(SetHighestScore(m, name, score).0, name) != "Incomplete"
  {
  }
}
