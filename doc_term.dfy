/** `write_doc_term`: the word-count file, one document per line in the
    format `<unique-terms> <term>:<count> <term>:<count> ...`, becomes one
    `(doc, term, count)` row per distinct term of each line. */
module DocTerm {
  import opened Errors
  import opened Text
  import opened Generators

  predicate IsDigit(c: char) {
    '0' <= c <= '9'
  }

  /** A non-empty run of decimal digits. */
  predicate IsDigits(s: string) {
    |s| > 0 && forall k :: 0 <= k < |s| ==> IsDigit(s[k])
  }

  function DigitsValue(s: string): nat
    requires forall k :: 0 <= k < |s| ==> IsDigit(s[k])
  {
    if s == [] then 0
    else
      var c := s[|s| - 1];
      assert IsDigit(c);
      10 * DigitsValue(s[..|s| - 1]) + (c as int - '0' as int)
  }

  /** Python 2 `int(s)` in base 10: surrounding whitespace is skipped, an
      optional `+` or `-` may be followed by whitespace, then one or more
      digits (leading zeros allowed); anything else is a `ValueError`
      naming `s`. */
  function ParseInt(s: string): (r: Result<int>)
    ensures r.Err? ==> r.error == ValueError(s)
  {
    var v := SignedValue(Strip(s));
    if v.Err? then Err(ValueError(s)) else v
  }

  /** The value of a run of digits. */
  function Unsigned(d: string): Result<int> {
    if IsDigits(d) then Ok(DigitsValue(d)) else Err(ValueError(d))
  }

  /** The value of stripped text: an optional sign, whitespace after the
      sign, then the digits. */
  function SignedValue(t: string): Result<int> {
    if t != [] && t[0] == '-' then
      var v := Unsigned(LeftStrip(t[1..]));
      if v.Ok? then Ok(-v.value) else v
    else if t != [] && t[0] == '+' then Unsigned(LeftStrip(t[1..]))
    else Unsigned(t)
  }

  /** `str(n)` for `n >= 0`: digits, no leading zero unless `n == 0`. */
  function NatToString(n: nat): (s: string)
    ensures IsDigits(s) && DigitsValue(s) == n
    ensures s[0] == '0' ==> n == 0
  {
    var last := ('0' as int + n % 10) as char;
    if n < 10 then [last]
    else
      var s := NatToString(n / 10) + [last];
      assert s[..|s| - 1] == NatToString(n / 10);
      s
  }

  /** `str(n)`. */
  function IntToString(n: int): (s: string)
    ensures |s| > 0 && (s[0] == '-' || IsDigit(s[0]))
    ensures forall k :: 0 <= k < |s| ==> s[k] == '-' || IsDigit(s[k])
  {
    if n < 0 then "-" + NatToString(-n) else NatToString(n)
  }

  /** Digits are their own stripped form and parse to their value. */
  lemma ParseIntOfDigits(d: string)
    requires IsDigits(d)
    ensures ParseInt(d) == Ok(DigitsValue(d))
  {
    StripOfDigits(d);
    SignedValueOfDigits(d);
  }

  lemma StripOfDigits(d: string)
    requires IsDigits(d)
    ensures Strip(d) == d
  {
    StripKeeps(d);
  }

  lemma SignedValueOfDigits(d: string)
    requires IsDigits(d)
    ensures SignedValue(d) == Ok(DigitsValue(d))
  {
    assert IsDigit(d[0]);
  }

  /** A minus sign followed by the digits of `v` parses to `-v`. */
  lemma ParseIntOfNegative(s: string, v: nat)
    requires |s| > 1 && s[0] == '-' && IsDigits(s[1..]) && DigitsValue(s[1..]) == v
    ensures ParseInt(s) == Ok(-(v as int))
  {
    StripOfNegative(s);
    SignedValueOfNegative(s, v);
    ParseIntOfStripped(s);
  }

  lemma StripOfNegative(s: string)
    requires |s| > 1 && s[0] == '-' && IsDigits(s[1..])
    ensures Strip(s) == s
  {
    assert s[|s| - 1] == s[1..][|s| - 2];
    StripKeeps(s);
  }

  lemma SignedValueOfNegative(s: string, v: nat)
    requires |s| > 1 && s[0] == '-' && IsDigits(s[1..]) && DigitsValue(s[1..]) == v
    ensures SignedValue(s) == Ok(-(v as int))
  {
    LeftStripOfDigits(s[1..]);
  }

  /** Text that strips to itself parses by its sign and digits alone. */
  lemma ParseIntOfStripped(s: string)
    requires Strip(s) == s && SignedValue(s).Ok?
    ensures ParseInt(s) == SignedValue(s)
  {
  }

  lemma LeftStripOfDigits(d: string)
    requires IsDigits(d)
    ensures LeftStrip(d) == d
  {
    assert !IsSpace(d[0]);
  }

  /** `int(str(n)) == n`. */
  lemma ParseIntOfString(n: int)
    ensures ParseInt(IntToString(n)) == Ok(n)
  {
    if n < 0 {
      var s := IntToString(n);
      assert s[1..] == NatToString(-n);
      ParseIntOfNegative(s, -n);
    } else {
      ParseIntOfDigits(NatToString(n));
    }
  }

  /** The stripped text `t` is a base-10 literal: `sign` is empty, `-` or
      `+`; `gap` is whitespace, allowed only after a sign; `d` is one or more
      digits. */
  predicate IntLiteral(t: string, sign: string, gap: string, d: string) {
    (sign == "" || sign == "-" || sign == "+") && (sign == "" ==> gap == []) &&
    AllSpace(gap) && IsDigits(d) && t == sign + gap + d
  }

  /** The value a literal with sign `sign` and digits `d` denotes. */
  function LiteralValue(sign: string, d: string): int
    requires IsDigits(d)
  {
    if sign == "-" then -(DigitsValue(d) as int) else DigitsValue(d)
  }

  /** `int()` accepts every text whose stripped form is a literal, with the
      literal's value. */
  lemma ParseIntAccepts(s: string, sign: string, gap: string, d: string)
    requires IntLiteral(Strip(s), sign, gap, d)
    ensures ParseInt(s) == Ok(LiteralValue(sign, d))
  {
    SignedValueOfLiteral(Strip(s), sign, gap, d);
  }

  lemma SignedValueOfLiteral(t: string, sign: string, gap: string, d: string)
    requires IntLiteral(t, sign, gap, d)
    ensures SignedValue(t) == Ok(LiteralValue(sign, d))
  {
    if sign == "" {
      assert t == d;
      SignedValueOfDigits(d);
    } else {
      assert t == [sign[0]] + (gap + d);
      SignedValueOfSigned(t, gap, d);
    }
  }

  /** After a sign, the whitespace is skipped and the digits are read. */
  lemma SignedValueOfSigned(t: string, gap: string, d: string)
    requires |t| > 0 && (t[0] == '-' || t[0] == '+')
    requires AllSpace(gap) && IsDigits(d) && t[1..] == gap + d
    ensures SignedValue(t) == Ok(if t[0] == '-' then -(DigitsValue(d) as int) else DigitsValue(d))
  {
    LeftStripOfGap(gap, d);
  }

  lemma LeftStripOfGap(gap: string, d: string)
    requires AllSpace(gap) && IsDigits(d)
    ensures LeftStrip(gap + d) == d
  {
    assert IsDigit(d[0]);
    LeadingSpaceOf(gap, d);
  }

  /** `int()` accepts nothing else: whatever it accepts strips to a literal,
      and the result is that literal's value. */
  lemma ParseIntAcceptsOnly(s: string) returns (sign: string, gap: string, d: string)
    requires ParseInt(s).Ok?
    ensures IntLiteral(Strip(s), sign, gap, d) && ParseInt(s).value == LiteralValue(sign, d)
  {
    sign, gap, d := SignedLiteral(Strip(s));
  }

  /** Stripped text that `SignedValue` accepts is a literal with that value. */
  lemma SignedLiteral(t: string) returns (sign: string, gap: string, d: string)
    requires SignedValue(t).Ok?
    ensures IntLiteral(t, sign, gap, d) && SignedValue(t) == Ok(LiteralValue(sign, d))
  {
    if t != [] && (t[0] == '-' || t[0] == '+') {
      sign, d := [t[0]], LeftStrip(t[1..]);
      assert Unsigned(d).Ok?;
      gap := SignGap(t[1..]);
      assert t == sign + t[1..];
    } else {
      sign, gap, d := "", "", t;
      assert t == sign + gap + d;
    }
    SignedValueOfLiteral(t, sign, gap, d);
  }

  /** Text whose left-stripped form is digits is whitespace, then those digits. */
  lemma SignGap(rest: string) returns (gap: string)
    requires IsDigits(LeftStrip(rest))
    ensures AllSpace(gap) && rest == gap + LeftStrip(rest)
  {
    var d := LeftStrip(rest);
    gap := rest[..|rest| - |d|];
    assert rest == gap + d;
  }

  /** One token `term:count`: `int(term.split(':')[0])` as the key and
      `int(term.split(':')[1])` as the value. Python evaluates the value of
      `terms[k] = v` before the key, so a token without `:` raises
      `IndexError` and a bad count is reported before a bad key. Pieces
      after a second `:` are ignored. */
  function ParseToken(t: string): (r: Result<(int, int)>)
    ensures var parts := SplitOn(t, ':');
            (|parts| < 2 ==> r == Err(IndexError)) &&
            (|parts| >= 2 && ParseInt(parts[1]).Err? ==> r == Err(ValueError(parts[1]))) &&
            (|parts| >= 2 && ParseInt(parts[1]).Ok? && ParseInt(parts[0]).Err? ==> r == Err(ValueError(parts[0]))) &&
            (|parts| >= 2 && ParseInt(parts[1]).Ok? && ParseInt(parts[0]).Ok? ==>
               r == Ok((ParseInt(parts[0]).value, ParseInt(parts[1]).value)))
  {
    var parts := SplitOn(t, ':');
    if |parts| < 2 then Err(IndexError)
    else
      match ParseInt(parts[1])
      case Err(e) => Err(e)
      case Ok(count) =>
        match ParseInt(parts[0])
        case Err(e) => Err(e)
        case Ok(key) => Ok((key, count))
  }

  /** `str(k) + ":" + str(c)`, the token the word-count format writes. */
  function EncodeToken(p: (int, int)): (t: string)
    ensures IsWord(t)
  {
    IntToString(p.0) + ":" + IntToString(p.1)
  }

  /** Every token the format writes parses back to its pair. */
  lemma ParseTokenOfEncoding(p: (int, int))
    ensures ParseToken(EncodeToken(p)) == Ok(p)
  {
    var a, b := IntToString(p.0), IntToString(p.1);
    assert ':' !in a && ':' !in b;
    assert EncodeToken(p) == a + [':'] + b;
    SplitOnPair(a, b, ':');
    ParseIntOfString(p.0);
    ParseIntOfString(p.1);
  }

  /** A token without `:` raises `IndexError`, whatever else it holds. */
  lemma ParseTokenWithoutColon(t: string)
    requires ':' !in t
    ensures ParseToken(t) == Err(IndexError)
  {
    SplitOnNone(t, ':');
  }

  /** The count is converted first: a bad count is the error reported even
      when the key is bad too. */
  lemma ParseTokenCountFirst(key: string, count: string)
    requires ':' !in key && ':' !in count
    requires ParseInt(count).Err?
    ensures ParseToken(key + ":" + count) == Err(ValueError(count))
  {
    assert key + ":" + count == key + [':'] + count;
    SplitOnPair(key, count, ':');
  }

  /** `doc.split()[1:]`: the leading unique-term count is skipped unread. */
  function LineTokens(line: string): (ts: seq<string>)
    ensures forall k :: 0 <= k < |ts| ==> IsWord(ts[k])
  {
    var ws := Split(line);
    if ws == [] then [] else ws[1..]
  }

  function TokenResults(ts: seq<string>): (rs: seq<Result<(int, int)>>)
    ensures |rs| == |ts|
    ensures forall k :: 0 <= k < |ts| ==> rs[k] == ParseToken(ts[k])
  {
    seq(|ts|, k requires 0 <= k < |ts| => ParseToken(ts[k]))
  }

  /** The dictionary the loop `terms[k] = v` builds from the pairs in order:
      a later pair for the same term overwrites an earlier one. */
  function TermCounts(ps: seq<(int, int)>): map<int, int>
  {
    if ps == [] then map[]
    else TermCounts(ps[..|ps| - 1])[ps[|ps| - 1].0 := ps[|ps| - 1].1]
  }

  /** A term is in the dictionary exactly when some pair names it, and its
      count is the count of the LAST pair that names it. */
  lemma {:induction false} TermCountsLastWins(ps: seq<(int, int)>, i: nat)
    requires i < |ps|
    requires forall j :: i < j < |ps| ==> ps[j].0 != ps[i].0
    ensures ps[i].0 in TermCounts(ps) && TermCounts(ps)[ps[i].0] == ps[i].1
  {
    var n := |ps| - 1;
    if i < n {
      TermCountsLastWins(ps[..n], i);
    }
  }

  lemma {:induction false} TermCountsKeys(ps: seq<(int, int)>, key: int)
    ensures key in TermCounts(ps) <==> exists i :: 0 <= i < |ps| && ps[i].0 == key
  {
    if ps != [] {
      var n := |ps| - 1;
      TermCountsKeys(ps[..n], key);
      assert forall i :: 0 <= i < n ==> ps[..n][i] == ps[i];
    }
  }

  /** The dictionary of one line, or the error its first bad token raises. */
  function LineCounts(line: string): Result<map<int, int>> {
    var pairs := Collect(TokenResults(LineTokens(line)));
    if pairs.Err? then Err(pairs.error) else Ok(TermCounts(pairs.value))
  }

  /** A line fails exactly when one of its tokens does, with the error of
      the first such token. */
  lemma LineCountsFails(line: string)
    ensures var ts := LineTokens(line);
            LineCounts(line).Err? <==> exists k :: 0 <= k < |ts| && ParseToken(ts[k]).Err?
    ensures var ts := LineTokens(line);
            LineCounts(line).Err? ==>
              exists k :: 0 <= k < |ts| && ParseToken(ts[k]) == Err(LineCounts(line).error) &&
                          forall j :: 0 <= j < k ==> ParseToken(ts[j]).Ok?
  {
    var rs := TokenResults(LineTokens(line));
    CollectOk(rs);
    if Collect(rs).Err? {
      CollectFirstError(rs);
    }
  }

  /** The line the word-count format writes for a document: a leading
      word (the unique-term count) and one `term:count` token per pair. */
  function EncodeLine(header: string, ps: seq<(int, int)>): string {
    JoinWords([header] + seq(|ps|, i requires 0 <= i < |ps| => EncodeToken(ps[i])))
  }

  /** Every line the format writes parses back to the dictionary of its
      pairs, whatever its leading word. */
  lemma LineCountsOfEncoding(header: string, ps: seq<(int, int)>)
    requires IsWord(header)
    ensures LineCounts(EncodeLine(header, ps)) == Ok(TermCounts(ps))
  {
    var toks := seq(|ps|, i requires 0 <= i < |ps| => EncodeToken(ps[i]));
    SplitJoin([header] + toks);
    assert LineTokens(EncodeLine(header, ps)) == toks;
    var rs := TokenResults(toks);
    forall i | 0 <= i < |ps| ensures rs[i] == Ok(ps[i]) {
      ParseTokenOfEncoding(ps[i]);
    }
    CollectOk(rs);
    assert Collect(rs).value == ps;
  }

  /** `doc.split()[1:]` drops the first word of the line and keeps the rest. */
  lemma LineTokensSkipHeader(header: string, ws: seq<string>)
    requires IsWord(header) && forall k :: 0 <= k < |ws| ==> IsWord(ws[k])
    ensures LineTokens(JoinWords([header] + ws)) == ws
  {
    SplitJoin([header] + ws);
  }

  lemma ExampleTokens()
    ensures EncodeToken((3, 2)) == "3:2" && EncodeToken((7, 1)) == "7:1"
  {
    assert IntToString(3) == "3" && IntToString(2) == "2" && IntToString(7) == "7" && IntToString(1) == "1";
  }

  lemma EncodeLineExample()
    ensures EncodeLine("2", [(3, 2), (7, 1)]) == "2 3:2 7:1"
  {
    var ps: seq<(int, int)> := [(3, 2), (7, 1)];
    ExampleTokens();
    assert ["2"] + seq(2, i requires 0 <= i < 2 => EncodeToken(ps[i])) == ["2", "3:2", "7:1"];
    assert JoinWords(["2", "3:2", "7:1"]) == "2 3:2 7:1";
  }

  /** `2 3:2 7:1` gives term 3 the count 2 and term 7 the count 1. */
  lemma LineCountsExample()
    ensures LineCounts("2 3:2 7:1") == Ok(map[3 := 2, 7 := 1])
  {
    var ps: seq<(int, int)> := [(3, 2), (7, 1)];
    LineCountsOfEncoding("2", ps);
    EncodeLineExample();
    assert ps[..1] == [(3, 2)];
  }

  /** A `doc_term` row `(doc, term, count)`; the key `int()` returns may be
      negative. */
  type CountRow = (nat, int, int)

  /** `rows` lists the dictionary `m` of document `docNo`: each row carries
      a term of `m` and its count, no term twice, every term of `m` once;
      in no particular order, as Python 2 dictionaries iterate. */
  predicate CountRows(docNo: nat, m: map<int, int>, rows: seq<CountRow>) {
    (forall k :: 0 <= k < |rows| ==> rows[k].0 == docNo && rows[k].1 in m && rows[k].2 == m[rows[k].1]) &&
    (forall k, l :: 0 <= k < l < |rows| ==> rows[k].1 != rows[l].1) &&
    (forall key :: key in m ==> key in Seconds(rows))
  }

  /** Python 2 dictionaries iterate in no particular order: `keys` is the
      order this model lists them in, each term of the dictionary once. */
  ghost predicate KeysOf(terms: map<int, int>, keys: seq<int>) {
    (forall k, l :: 0 <= k < l < |keys| ==> keys[k] != keys[l]) &&
    (forall key :: key in terms <==> key in keys)
  }

  /** The loop `for term in doc: terms[int(...)] = int(...)`, which stops at
      the first token that raises. */
  method CountTerms(tokens: seq<string>) returns (r: Result<map<int, int>>, keys: seq<int>)
    ensures r.Err? <==> Collect(TokenResults(tokens)).Err?
    ensures r.Err? ==> r.error == Collect(TokenResults(tokens)).error
    ensures r.Ok? ==> r.value == TermCounts(Collect(TokenResults(tokens)).value) && KeysOf(r.value, keys)
  {
    ghost var rs := TokenResults(tokens);
    ghost var pairs: seq<(int, int)> := [];
    var terms: map<int, int> := map[];
    keys := [];
    for i := 0 to |tokens|
      invariant Collect(rs[..i]) == Ok(pairs)
      invariant terms == TermCounts(pairs)
      invariant KeysOf(terms, keys)
    {
      var p := ParseToken(tokens[i]);
      assert p == rs[i];
      CountStep(rs, i, pairs, terms, keys);
      if p.Err? {
        return Err(p.error), keys;
      }
      if p.value.0 !in terms {
        keys := keys + [p.value.0];
      }
      terms := terms[p.value.0 := p.value.1];
      pairs := pairs + [p.value];
    }
    CollectWhole(rs);
    r := Ok(terms);
  }

  /** One pass of the token loop: a failing step fails the whole run with
      its error; otherwise the run so far, the dictionary and its key list
      each grow by that step's pair. */
  lemma CountStep(rs: seq<Result<(int, int)>>, i: nat, pairs: seq<(int, int)>, terms: map<int, int>, keys: seq<int>)
    requires i < |rs| && Collect(rs[..i]) == Ok(pairs)
    requires terms == TermCounts(pairs) && KeysOf(terms, keys)
    ensures rs[i].Err? ==> Collect(rs) == Err(rs[i].error)
    ensures rs[i].Ok? ==>
              var p := rs[i].value;
              Collect(rs[..i + 1]) == Ok(pairs + [p]) && TermCounts(pairs + [p]) == terms[p.0 := p.1] &&
              KeysOf(terms[p.0 := p.1], if p.0 in terms then keys else keys + [p.0])
  {
    if rs[i].Err? {
      CollectSnocErr(rs, i);
    } else {
      CollectSnoc(rs, i, pairs);
      AddPair(pairs, rs[i].value, terms, keys);
    }
  }

  /** One more `terms[k] = v` updates the dictionary and lists a new term
      once. */
  lemma AddPair(pairs: seq<(int, int)>, p: (int, int), terms: map<int, int>, keys: seq<int>)
    requires terms == TermCounts(pairs) && KeysOf(terms, keys)
    ensures TermCounts(pairs + [p]) == terms[p.0 := p.1]
    ensures KeysOf(terms[p.0 := p.1], if p.0 in terms then keys else keys + [p.0])
  {
    assert (pairs + [p])[..|pairs|] == pairs;
  }

  /** The body of the loop for one line: count its tokens, then zip
      `(doc_no,)*len(keys)`, `keys` and `(terms[i] for i in keys)`. */
  method ParseLine(docNo: nat, line: string) returns (r: Result<seq<CountRow>>)
    ensures r.Err? <==> LineCounts(line).Err?
    ensures r.Err? ==> r.error == LineCounts(line).error
    ensures r.Ok? ==> CountRows(docNo, LineCounts(line).value, r.value)
  {
    var terms, keys := CountTerms(LineTokens(line));
    if terms.Err? {
      return Err(terms.error);
    }
    var m := terms.value;
    forall j | 0 <= j < |keys| ensures keys[j] in m {
      assert keys[j] in keys;
    }
    var counts := seq(|keys|, j requires 0 <= j < |keys| => m[keys[j]]);
    var rows := Zip3(Repeat(docNo, |keys|), keys, counts);
    assert Seconds(rows) == keys;
    r := Ok(rows);
  }

  /** Rows in file order: each later row is for a later document, or for the
      same document and a different term. */
  predicate Ordered(rows: seq<CountRow>) {
    forall k, l :: 0 <= k < l < |rows| ==> rows[k].0 < rows[l].0 || (rows[k].0 == rows[l].0 && rows[k].1 != rows[l].1)
  }

  /** The dictionary (or error) of every line of the file. */
  function FileCounts(lines: seq<string>): (cs: seq<Result<map<int, int>>>)
    ensures |cs| == |lines|
    ensures forall i :: 0 <= i < |lines| ==> cs[i] == LineCounts(lines[i])
  {
    seq(|lines|, i requires 0 <= i < |lines| => LineCounts(lines[i]))
  }

  /** Row `row` states a count that the dictionary of line `row.0` holds. */
  predicate CountIn(cs: seq<Result<map<int, int>>>, row: CountRow) {
    row.0 < |cs| && cs[row.0].Ok? && row.1 in cs[row.0].value && row.2 == cs[row.0].value[row.1]
  }

  /** `write_doc_term`: the rows of every line, in file order. The first
      line with a bad token ends the run, before the commit, so no row of
      the relation is kept. */
  method WriteDocTerm(lines: seq<string>) returns (r: Result<seq<CountRow>>)
    ensures r.Ok? <==> forall i :: 0 <= i < |lines| ==> LineCounts(lines[i]).Ok?
    ensures r.Err? ==> exists i :: 0 <= i < |lines| && LineCounts(lines[i]) == Err(r.error) &&
                                   forall j :: 0 <= j < i ==> LineCounts(lines[j]).Ok?
    ensures r.Ok? ==> forall row: CountRow :: row in r.value <==> CountIn(FileCounts(lines), row)
    ensures r.Ok? ==> Ordered(r.value)
  {
    ghost var cs := FileCounts(lines);
    var rows: seq<CountRow> := [];
    for docNo := 0 to |lines|
      invariant forall j :: 0 <= j < docNo ==> cs[j].Ok?
      invariant forall k :: 0 <= k < |rows| ==> rows[k].0 < docNo
      invariant forall row: CountRow :: row in rows <==> row.0 < docNo && CountIn(cs, row)
      invariant Ordered(rows)
    {
      var batch := ParseLine(docNo, lines[docNo]);
      assert cs[docNo] == LineCounts(lines[docNo]);
      if batch.Err? {
        assert forall j :: 0 <= j < docNo ==> LineCounts(lines[j]).Ok?;
        return Err(batch.error);
      }
      AppendLineRows(cs, docNo, rows, batch.value);
      rows := rows + batch.value;
    }
    r := Ok(rows);
  }

  /** Appending the rows of line `docNo` keeps the rows of earlier lines
      first and adds exactly the counts of that line. */
  lemma AppendLineRows(cs: seq<Result<map<int, int>>>, docNo: nat, rows: seq<CountRow>, batch: seq<CountRow>)
    requires docNo < |cs| && cs[docNo].Ok?
    requires CountRows(docNo, cs[docNo].value, batch)
    requires forall j :: 0 <= j < docNo ==> cs[j].Ok?
    requires forall k :: 0 <= k < |rows| ==> rows[k].0 < docNo
    requires forall row: CountRow :: row in rows <==> row.0 < docNo && CountIn(cs, row)
    requires Ordered(rows)
    ensures forall j :: 0 <= j < docNo + 1 ==> cs[j].Ok?
    ensures forall k :: 0 <= k < |rows + batch| ==> (rows + batch)[k].0 < docNo + 1
    ensures forall row: CountRow :: row in rows + batch <==> row.0 < docNo + 1 && CountIn(cs, row)
    ensures Ordered(rows + batch)
  {
    var m := cs[docNo].value;
    forall row: CountRow | row.0 == docNo && CountIn(cs, row) ensures row in batch {
      var key: int := row.1;
      assert key in m;
      assert key in Seconds(batch);
      var k :| 0 <= k < |batch| && Seconds(batch)[k] == key;
      assert batch[k] == row;
    }
  }
}
