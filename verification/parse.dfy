/**
  The line-oriented BibTeX scanner of `src/parse.rs`.

  Every line of the input is classified, on the line as it stands (not trimmed),
  as blank, as the start of an entry (`@...`), as the end of an entry (`}...`)
  or as a field (`name = value`). The scanner keeps a current key and a field
  accumulator and emits one record per closing line. The record handed to
  `Reference::new` is modelled as an `Entry`: the key and the raw field map.
 */
module Parse {
  import opened Results
  import opened Text

  /** What one closing line emits: the current key and the fields gathered since the last closing line. */
  datatype Entry = Entry(key: string, fields: map<string, string>)

  /** The state of the scan: the current key, the field accumulator and the records emitted so far. */
  datatype Scanner = Scanner(key: string, fields: map<string, string>, refs: seq<Entry>)

  /** Before the first line: empty key, no fields, no records. */
  const Start := Scanner("", map[], [])

  /** `strip_optional_prefix`: `s` without `prefix` when it starts with it, else `s` itself. */
  function StripOptionalPrefix(s: string, prefix: string): (r: string)
    ensures if prefix <= s then prefix + r == s else r == s
  {
    if prefix <= s then s[|prefix|..] else s
  }

  /** `strip_optional_suffix`: `s` without `suffix` when it ends with it, else `s` itself. */
  function StripOptionalSuffix(s: string, suffix: string): (r: string)
    ensures if EndsWith(s, suffix) then r + suffix == s else r == s
  {
    if EndsWith(s, suffix) then s[..|s| - |suffix|] else s
  }

  /** The loop indexes piece 1 of `line.split('{')` on every `@` line, so such a line must hold a `{`. */
  predicate Admissible(line: string) {
    StartsWith(line, '@') ==> '{' in line
  }

  predicate AllAdmissible(lines: seq<string>) {
    forall k :: 0 <= k < |lines| ==> Admissible(lines[k])
  }

  /**
    The key of an `@` line: piece 0 of `split(',')` of piece 1 of `split('{')`,
    that is, the longest prefix of the text after the first `{` that holds
    neither `{` nor `,`.
   */
  function EntryKey(line: string): (key: string)
    requires '{' in line
    ensures var rest := line[IndexOf(line, '{') + 1..];
            key <= rest && '{' !in key && ',' !in key
            && (|key| == |rest| || rest[|key|] == '{' || rest[|key|] == ',')
  {
    SplitSecond(line, '{');
    var inner := Split(line, '{')[1];
    KeyPrefix(line[IndexOf(line, '{') + 1..]);
    Split(inner, ',')[0]
  }

  /** The text of `rest` up to its first `{`, then up to its first `,`, is its longest prefix free of both. */
  lemma KeyPrefix(rest: string)
    ensures var inner := rest[..IndexOf(rest, '{')];
            var key := inner[..IndexOf(inner, ',')];
            key <= rest && '{' !in key && ',' !in key
            && (|key| == |rest| || rest[|key|] == '{' || rest[|key|] == ',')
  {
    var i := IndexOf(rest, '{');
    var inner := rest[..i];
    var j := IndexOf(inner, ',');
    var key := inner[..j];
    assert forall k :: 0 <= k < j ==> key[k] == rest[k];
    if j < |inner| {
      assert rest[j] == inner[j];
    }
  }

  /** The stored field name: the trimmed text before the first `=`. */
  function FieldName(line: string): (name: string)
    requires '=' in line
    ensures name == Trim(line[..IndexOf(line, '=')])
  {
    Trim(Split(line, '=')[0])
  }

  /** Piece 1 of `line.split('=')`: the text between the first and the second `=` (or the end). */
  function RawValue(line: string): (raw: string)
    requires '=' in line
    ensures var rest := line[IndexOf(line, '=') + 1..];
            raw == rest[..IndexOf(rest, '=')]
  {
    SplitSecond(line, '=');
    Split(line, '=')[1]
  }

  /** The stored value: trimmed, then one leading `{`, one trailing `,` and one trailing `}` removed when present. */
  function CleanValue(raw: string): (v: string)
    ensures exists front: string, back: string :: front + v + back == Trim(raw) && Opener(front) && Closer(back)
  {
    var t := Trim(raw);
    var a := StripOptionalPrefix(t, "{");
    var b := StripOptionalSuffix(a, ",");
    var v := StripOptionalSuffix(b, "}");
    StrippedParts(t, a, b, v);
    v
  }

  /** What the strips may remove in front of a value: nothing or one `{`. */
  predicate Opener(s: string) {
    s == [] || s == "{"
  }

  /** What the strips may remove behind a value: nothing, a `,`, a `}`, or `},`. */
  predicate Closer(s: string) {
    s == [] || s == "," || s == "}" || s == "},"
  }

  /** What the three strips remove: at most a `{` in front, and a `,` or a `}` or both behind. */
  lemma StrippedParts(t: string, a: string, b: string, v: string)
    requires a == StripOptionalPrefix(t, "{")
    requires b == StripOptionalSuffix(a, ",") && v == StripOptionalSuffix(b, "}")
    ensures exists front: string, back: string :: front + v + back == t && Opener(front) && Closer(back)
  {
    var front := FrontStripped(t, a);
    var back := BackStripped(a, b, v);
    assert front + v + back == t && Opener(front) && Closer(back) by {
      assert front + v + back == front + (v + back);
    }
  }

  /** The prefix strip removes nothing or one `{`. */
  lemma FrontStripped(t: string, a: string) returns (front: string)
    requires a == StripOptionalPrefix(t, "{")
    ensures front + a == t && Opener(front)
  {
    if "{" <= t {
      front := "{";
    } else {
      front := [];
    }
  }

  /** The two suffix strips remove nothing, a `,`, a `}`, or `},`. */
  lemma BackStripped(a: string, b: string, v: string) returns (back: string)
    requires b == StripOptionalSuffix(a, ",") && v == StripOptionalSuffix(b, "}")
    ensures v + back == a && Closer(back)
  {
    var comma: string := if EndsWith(a, ",") then "," else [];
    assert b + comma == a;
    var brace: string := if EndsWith(b, "}") then "}" else [];
    assert v + brace == b;
    back := brace + comma;
    assert v + back == (v + brace) + comma;
    if brace == [] {
      assert back == comma;
    } else if comma == [] {
      assert back == brace;
    }
  }

  /**
    Which characters the strips remove, in their order: after an optional
    leading `{`, a trailing `},` loses both characters, a trailing `,` alone
    or `}` alone loses that one, and anything else is kept.
   */
  lemma CleanValueExact(raw: string)
    ensures var a := StripOptionalPrefix(Trim(raw), "{");
            var v := CleanValue(raw);
            && ("{" <= Trim(raw) ==> "{" + a == Trim(raw))
            && (EndsWith(a, "},") ==> v + "}," == a)
            && (EndsWith(a, ",") && !EndsWith(a, "},") ==> v + "," == a)
            && (EndsWith(a, "}") ==> v + "}" == a)
            && (!EndsWith(a, ",") && !EndsWith(a, "}") ==> v == a)
  {
    BackExact(StripOptionalPrefix(Trim(raw), "{"));
  }

  /** The two suffix strips of `CleanValue`, case by case. */
  lemma BackExact(a: string)
    ensures var v := StripOptionalSuffix(StripOptionalSuffix(a, ","), "}");
            && (EndsWith(a, "},") ==> v + "}," == a)
            && (EndsWith(a, ",") && !EndsWith(a, "},") ==> v + "," == a)
            && (EndsWith(a, "}") ==> v + "}" == a)
            && (!EndsWith(a, ",") && !EndsWith(a, "}") ==> v == a)
  {
    var b := StripOptionalSuffix(a, ",");
    var v := StripOptionalSuffix(b, "}");
    if EndsWith(a, ",") {
      assert b + "," == a;
      if EndsWith(a, "},") {
        assert b[|b| - 1] == a[|a| - 2] == '}';
        assert EndsWith(b, "}");
        assert v + "}" == b;
        assert v + "}," == (v + "}") + ",";
      }
    } else {
      assert b == a;
    }
  }

  /** The stored value of a field line: it never holds `=`, since the raw value is cut at the second `=`. */
  function FieldValue(line: string): (v: string)
    requires '=' in line
    ensures '=' !in v
    ensures exists front: string, back: string :: front + v + back == Trim(RawValue(line))
  {
    var raw := RawValue(line);
    var v := CleanValue(raw);
    var front: string, back: string :| front + v + back == Trim(raw) && Opener(front) && Closer(back);
    var rest := line[IndexOf(line, '=') + 1..];
    assert '=' !in raw by {
      assert raw == rest[..IndexOf(rest, '=')];
    }
    TrimKeepsAbsent(raw, '=');
    InfixFree(front, v, back, Trim(raw), '=');
    v
  }

  /** What the loop makes of one line, before it acts on it. */
  datatype LineKind =
    | Blank                                  // empty once trimmed
    | Opening(key: string)                   // starts with `@`
    | Closing                                // starts with `}`
    | Field(name: string, value: string)     // anything else holding a `=`
    | NoEquals                               // anything else

  /**
    The tests of the loop body, in its order: the `@` and `}` tests look at the
    untrimmed line. Every line gets exactly one kind.
   */
  function Classify(line: string): (kind: LineKind)
    requires Admissible(line)
    ensures kind.Blank? <==> AllWhitespace(line)
    ensures kind.Opening? <==> !AllWhitespace(line) && StartsWith(line, '@')
    ensures kind.Closing? <==> StartsWith(line, '}')
    ensures kind.Field? <==> !AllWhitespace(line) && !StartsWith(line, '@') && !StartsWith(line, '}') && '=' in line
  {
    assert StartsWith(line, '}') ==> !IsWhitespace(line[0]);
    if Trim(line) == [] then Blank
    else if StartsWith(line, '@') then Opening(EntryKey(line))
    else if StartsWith(line, '}') then Closing
    else
      var field := Split(line, '=');
      if |field| < 2 then NoEquals
      else Field(FieldName(line), FieldValue(line))
  }

  /** The kinds of a sequence of lines. */
  function Classified(lines: seq<string>): (kinds: seq<LineKind>)
    requires AllAdmissible(lines)
    ensures |kinds| == |lines|
    ensures forall k :: 0 <= k < |lines| ==> kinds[k] == Classify(lines[k])
  {
    seq(|lines|, k requires 0 <= k < |lines| => Classify(lines[k]))
  }

  /**
    What the loop body does with a classified line: blank lines and lines
    without `=` change nothing, an `@` line sets the key, a `}` line appends
    one record with the key and fields as they stand and empties the
    accumulator, and a field line overwrites that one name.
   */
  function Step(st: Scanner, kind: LineKind): (next: Scanner)
    ensures kind.Blank? || kind.NoEquals? ==> next == st
    ensures next.key == (if kind.Opening? then kind.key else st.key)
    ensures st.refs <= next.refs
    ensures |next.refs| == |st.refs| + (if kind.Closing? then 1 else 0)
    ensures kind.Closing? ==> next.refs[|st.refs|] == Entry(st.key, st.fields) && next.fields == map[]
    ensures kind.Field? ==> next.fields == st.fields[kind.name := kind.value]
    ensures !kind.Closing? && !kind.Field? ==> next.fields == st.fields
  {
    match kind
    case Blank => st
    case Opening(key) => st.(key := key)
    case Closing => Scanner(st.key, map[], st.refs + [Entry(st.key, st.fields)])
    case Field(name, value) => st.(fields := st.fields[name := value])
    case NoEquals => st
  }

  /** The state after the loop has consumed lines of the given kinds, from `Start`. */
  function Scan(kinds: seq<LineKind>): (st: Scanner)
    ensures |st.refs| == CountClosing(kinds)
  {
    if kinds == [] then Start
    else
      var n := |kinds| - 1;
      assert kinds == kinds[..n] + [kinds[n]];
      CountClosingSnoc(kinds[..n], kinds[n]);
      Step(Scan(kinds[..n]), kinds[n])
  }

  /** `parse_bibtex`: the loop over `bibtex.lines()`; it always returns `Ok`. */
  method ParseBibtex(bibtex: string) returns (r: Result<seq<Entry>, string>)
    requires AllAdmissible(Lines(bibtex))
    ensures r == Ok(Scan(Classified(Lines(bibtex))).refs)
    ensures |r.value| == ClosingLines(Lines(bibtex))
  {
    var lines := Lines(bibtex);
    ghost var kinds := Classified(lines);
    var references: seq<Entry> := [];
    var fields: map<string, string> := map[];
    var key: string := "";
    for i := 0 to |lines|
      invariant Scanner(key, fields, references) == Scan(kinds[..i])
    {
      ScanNextLine(lines, i);
      key, fields, references := ScanLine(lines[i], key, fields, references);
    }
    ScanAllLines(lines);
    return Ok(references);
  }

  /** The state after line `i` is one loop step, on the kind of line `i`, past the state before it. */
  lemma ScanNextLine(lines: seq<string>, i: nat)
    requires AllAdmissible(lines) && i < |lines|
    ensures Admissible(lines[i])
    ensures Scan(Classified(lines)[..i + 1]) == Step(Scan(Classified(lines)[..i]), Classify(lines[i]))
  {
    ScanPrefixStep(Classified(lines), i);
  }

  /** After the last line, the state is the fold over all lines, with one record per closing line. */
  lemma ScanAllLines(lines: seq<string>)
    requires AllAdmissible(lines)
    ensures Scan(Classified(lines)[..|lines|]) == Scan(Classified(lines))
    ensures |Scan(Classified(lines)).refs| == ClosingLines(lines)
  {
    assert Classified(lines)[..|lines|] == Classified(lines);
    ClosingLinesCounted(lines);
  }

  /** The body of the loop of `parse_bibtex` for one line: the state moves as `Step` says for the line's kind. */
  method ScanLine(line: string, key: string, fields: map<string, string>, references: seq<Entry>)
    returns (key': string, fields': map<string, string>, references': seq<Entry>)
    requires Admissible(line)
    ensures Scanner(key', fields', references') == Step(Scanner(key, fields, references), Classify(line))
  {
    key', fields', references' := key, fields, references;
    if Trim(line) == [] {
      return;
    }
    if StartsWith(line, '@') {
      key' := EntryKey(line);
    } else if StartsWith(line, '}') {
      references' := references + [Entry(key, fields)];
      fields' := map[];
    } else {
      var field := Split(line, '=');
      if |field| < 2 {
        return;
      }
      var name := Trim(field[0]);
      var value := StripOptionalSuffix(StripOptionalSuffix(StripOptionalPrefix(Trim(field[1]), "{"), ","), "}");
      fields' := fields[name := value];
    }
  }

  // ---------------------------------------------------------------------------
  // Properties of the scan

  /** The number of closing lines, counted from the front. */
  function CountClosing(kinds: seq<LineKind>): nat {
    if kinds == [] then 0
    else (if kinds[0] == Closing then 1 else 0) + CountClosing(kinds[1..])
  }

  /** The number of lines whose first character is `}`. */
  function ClosingLines(lines: seq<string>): nat {
    if lines == [] then 0
    else (if StartsWith(lines[0], '}') then 1 else 0) + ClosingLines(lines[1..])
  }

  /** The closing kinds are exactly the lines that start with `}`. */
  lemma {:induction false} ClosingLinesCounted(lines: seq<string>)
    requires AllAdmissible(lines)
    ensures CountClosing(Classified(lines)) == ClosingLines(lines)
  {
    if lines != [] {
      assert AllAdmissible(lines[1..]) by {
        assert forall k :: 0 <= k < |lines| - 1 ==> lines[1..][k] == lines[k + 1];
      }
      assert Classified(lines)[1..] == Classified(lines[1..]);
      ClassifyClosing(lines[0]);
      ClosingLinesCounted(lines[1..]);
    }
  }

  lemma {:induction false} CountClosingSnoc(kinds: seq<LineKind>, x: LineKind)
    ensures CountClosing(kinds + [x]) == CountClosing(kinds) + (if x == Closing then 1 else 0)
  {
    if kinds == [] {
      assert [x][1..] == [];
    } else {
      assert (kinds + [x])[1..] == kinds[1..] + [x];
      CountClosingSnoc(kinds[1..], x);
    }
  }

  /** The state after the first `i + 1` lines is one step past the state after the first `i`. */
  lemma ScanPrefixStep(kinds: seq<LineKind>, i: nat)
    requires i < |kinds|
    ensures Scan(kinds[..i + 1]) == Step(Scan(kinds[..i]), kinds[i])
  {
    assert kinds[..i + 1][..i] == kinds[..i];
  }

  /** One record per closing line, and the accumulator is empty right after a closing line. */
  lemma {:induction false} ScanRefCount(kinds: seq<LineKind>)
    ensures |Scan(kinds).refs| == CountClosing(kinds)
    ensures kinds != [] && kinds[|kinds| - 1] == Closing ==> Scan(kinds).fields == map[]
  {
    if kinds != [] {
      var n := |kinds| - 1;
      ScanRefCount(kinds[..n]);
      CountClosingSnoc(kinds[..n], kinds[n]);
      assert kinds[..n] + [kinds[n]] == kinds;
    }
  }

  lemma ScanLast(kinds: seq<LineKind>)
    requires kinds != []
    ensures Scan(kinds) == Step(Scan(kinds[..|kinds| - 1]), kinds[|kinds| - 1])
  {
  }

  predicate NoOpening(kinds: seq<LineKind>) {
    forall k :: 0 <= k < |kinds| ==> !kinds[k].Opening?
  }

  /** `j` is the last `@` line. */
  predicate LastOpening(kinds: seq<LineKind>, j: int) {
    0 <= j < |kinds| && kinds[j].Opening? && forall k :: j < k < |kinds| ==> !kinds[k].Opening?
  }

  lemma OpeningsOfPrefix(kinds: seq<LineKind>, j: int)
    requires kinds != [] && !kinds[|kinds| - 1].Opening?
    ensures NoOpening(kinds) ==> NoOpening(kinds[..|kinds| - 1])
    ensures LastOpening(kinds, j) ==> LastOpening(kinds[..|kinds| - 1], j)
  {
  }

  /**
    The key is that of the last `@` line, and `""` when there is none: a closing
    line never resets it, so an entry closed without a new `@` line reuses it.
   */
  lemma {:induction false} ScanKey(kinds: seq<LineKind>)
    ensures NoOpening(kinds) ==> Scan(kinds).key == ""
    ensures forall j :: LastOpening(kinds, j) ==> Scan(kinds).key == kinds[j].key
  {
    if kinds != [] {
      var n := |kinds| - 1;
      ScanKey(kinds[..n]);
      ScanLast(kinds);
      if !kinds[n].Opening? {
        OpeningsOfPrefix(kinds, 0);
        forall j | LastOpening(kinds, j) ensures Scan(kinds).key == kinds[j].key {
          OpeningsOfPrefix(kinds, j);
        }
      }
    }
  }

  /** `j` is a field line with no closing line after it. */
  predicate Pending(kinds: seq<LineKind>, j: int) {
    0 <= j < |kinds| && kinds[j].Field? && forall k :: j < k < |kinds| ==> kinds[k] != Closing
  }

  /** `j` is pending and no later field line has the same name. */
  predicate LatestFor(kinds: seq<LineKind>, j: int) {
    Pending(kinds, j)
    && forall k :: j < k < |kinds| && kinds[k].Field? ==> kinds[k].name != kinds[j].name
  }

  /** Pending lines before a last line that is not a closing line are pending in the prefix too, and back. */
  lemma PendingOfPrefix(kinds: seq<LineKind>, j: int)
    requires kinds != [] && kinds[|kinds| - 1] != Closing && 0 <= j < |kinds| - 1
    ensures Pending(kinds, j) <==> Pending(kinds[..|kinds| - 1], j)
    ensures LatestFor(kinds, j) ==> LatestFor(kinds[..|kinds| - 1], j)
  {
  }

  /**
    The accumulator holds exactly the names of the field lines since the last
    closing line, each with the value of its last such line: a repeated name
    keeps the last value.
   */
  lemma {:induction false} ScanPending(kinds: seq<LineKind>)
    ensures forall name :: name in Scan(kinds).fields ==>
              exists j :: Pending(kinds, j) && kinds[j].name == name
    ensures forall j :: LatestFor(kinds, j) ==>
              kinds[j].name in Scan(kinds).fields && Scan(kinds).fields[kinds[j].name] == kinds[j].value
  {
    if kinds != [] {
      var n := |kinds| - 1;
      var p := kinds[..n];
      ScanPending(p);
      ScanLast(kinds);
      var kind := kinds[n];
      var fields := Scan(kinds).fields;
      if kind != Closing {
        forall name | name in fields
          ensures exists j :: Pending(kinds, j) && kinds[j].name == name
        {
          if kind.Field? && name == kind.name {
            assert Pending(kinds, n);
          } else {
            var j :| Pending(p, j) && p[j].name == name;
            PendingOfPrefix(kinds, j);
          }
        }
        forall j | LatestFor(kinds, j)
          ensures kinds[j].name in fields && fields[kinds[j].name] == kinds[j].value
        {
          if j < n {
            PendingOfPrefix(kinds, j);
          }
        }
      }
    }
  }

  /** The records of a prefix of the input are a prefix of the records of the whole input. */
  lemma {:induction false} ScanRefsGrow(kinds: seq<LineKind>, n: nat)
    requires n <= |kinds|
    ensures Scan(kinds[..n]).refs <= Scan(kinds).refs
  {
    if n < |kinds| {
      var m := |kinds| - 1;
      var p := kinds[..m];
      ScanRefsGrow(p, n);
      assert p[..n] == kinds[..n];
    } else {
      assert kinds[..n] == kinds;
    }
  }

  /**
    The closing line at index `i` emits the record numbered by the closing
    lines before it, holding the key and the accumulator as they stood just
    before that line.
   */
  lemma ScanEmits(kinds: seq<LineKind>, i: nat)
    requires i < |kinds| && kinds[i] == Closing
    ensures CountClosing(kinds[..i]) < |Scan(kinds).refs|
    ensures Scan(kinds).refs[CountClosing(kinds[..i])] == Entry(Scan(kinds[..i]).key, Scan(kinds[..i]).fields)
  {
    assert kinds[..i + 1][..i] == kinds[..i];
    ScanRefsGrow(kinds, i + 1);
    ScanRefCount(kinds[..i]);
  }

  /** Lines that leave the state alone: blank lines and lines without `=`. */
  predicate Inert(kind: LineKind) {
    kind == Blank || kind == NoEquals
  }

  /** The kinds without the inert ones. */
  function Significant(kinds: seq<LineKind>): (r: seq<LineKind>)
    ensures forall k :: 0 <= k < |r| ==> !Inert(r[k])
    ensures |r| <= |kinds|
  {
    if kinds == [] then []
    else if Inert(kinds[0]) then Significant(kinds[1..])
    else [kinds[0]] + Significant(kinds[1..])
  }

  lemma {:induction false} SignificantSnoc(kinds: seq<LineKind>, x: LineKind)
    ensures Significant(kinds + [x]) == Significant(kinds) + (if Inert(x) then [] else [x])
  {
    if kinds == [] {
      assert [x][1..] == [];
    } else {
      assert (kinds + [x])[1..] == kinds[1..] + [x];
      SignificantSnoc(kinds[1..], x);
    }
  }

  /** Blank lines and lines without `=` change nothing: dropping them leaves the outcome as it was. */
  lemma {:induction false} ScanSkipsInert(kinds: seq<LineKind>)
    ensures Scan(Significant(kinds)) == Scan(kinds)
  {
    if kinds != [] {
      var n := |kinds| - 1;
      var p := kinds[..n];
      assert p + [kinds[n]] == kinds;
      SignificantSnoc(p, kinds[n]);
      ScanSkipsInert(p);
      ScanLast(kinds);
      if Inert(kinds[n]) {
        assert Significant(kinds) == Significant(p) + [];
        assert Significant(p) + [] == Significant(p);
      } else {
        var q := Significant(p) + [kinds[n]];
        assert Significant(kinds) == q;
        assert q[..|q| - 1] == Significant(p);
        ScanLast(q);
      }
    }
  }

  // ---------------------------------------------------------------------------
  // Single lines

  /** A line is blank exactly when it is all whitespace. */
  lemma ClassifyBlank(line: string)
    requires Admissible(line)
    ensures Classify(line) == Blank <==> AllWhitespace(line)
  {
  }

  /** A line closes an entry exactly when its first character is `}`: such a line is never blank. */
  lemma ClassifyClosing(line: string)
    requires Admissible(line)
    ensures Classify(line) == Closing <==> StartsWith(line, '}')
  {
    if StartsWith(line, '}') {
      assert !IsWhitespace(line[0]);
    }
  }

  /** An indented `}` is not a closing line: it holds no `=`, so it is skipped. */
  lemma IndentedBraceSkipped(indent: string)
    requires indent != [] && AllWhitespace(indent)
    ensures Classify(indent + "}") == NoEquals
  {
    var line := indent + "}";
    assert line[|line| - 1] == '}' && !IsWhitespace(line[|line| - 1]);
    assert line[0] == indent[0] && IsWhitespace(line[0]);
    assert '=' !in indent by {
      assert forall k :: 0 <= k < |indent| ==> indent[k] != '=';
    }
    ClassifyNoEquals(line);
  }

  /** The usual header `@type{key,...`: the key is read back exactly. */
  lemma EntryKeyOfHeader(ty: string, key: string, tail: string)
    requires '{' !in ty && '{' !in key && ',' !in key
    ensures EntryKey("@" + ty + "{" + key + "," + tail) == key
  {
    var head := "@" + ty;
    var rest := key + "," + tail;
    assert "@" + ty + "{" + key + "," + tail == head + ['{'] + rest;
    EntryKeyAfter(head, rest);
    assert rest[|key|] == ',' && rest[..|key|] == key;
    KeyIsLongestPrefix(rest, key, EntryKey(head + ['{'] + rest));
  }

  /** The key of a line whose first `{` closes `head` is read from the text after it. */
  lemma EntryKeyAfter(head: string, rest: string)
    requires '{' !in head
    ensures var key := EntryKey(head + ['{'] + rest);
            key <= rest && '{' !in key && ',' !in key
            && (|key| == |rest| || rest[|key|] == '{' || rest[|key|] == ',')
  {
    var line := head + ['{'] + rest;
    IndexOfAfter(head, '{', rest);
    assert line[|head| + 1..] == rest;
  }

  /** Two prefixes of `rest` free of `{` and `,` that each end at the end of `rest`, a `{` or a `,` are equal. */
  lemma KeyIsLongestPrefix(rest: string, key: string, r: string)
    requires key <= rest && '{' !in key && ',' !in key
    requires |key| == |rest| || rest[|key|] == '{' || rest[|key|] == ','
    requires r <= rest && '{' !in r && ',' !in r
    requires |r| == |rest| || rest[|r|] == '{' || rest[|r|] == ','
    ensures r == key
  {
  }

  lemma StripPrefixOf(p: string, x: string)
    ensures StripOptionalPrefix(p + x, p) == x
  {
    assert p <= p + x;
    assert (p + x)[|p|..] == x;
  }

  lemma StripSuffixOf(x: string, p: string)
    ensures StripOptionalSuffix(x + p, p) == x
  {
    assert (x + p)[|x|..] == p;
    assert (x + p)[..|x|] == x;
  }

  /** A value written `{v},` or `{v}`, padded with whitespace, is stored as `v`. */
  lemma CleanValueBraced(a: string, v: string, b: string)
    requires AllWhitespace(a) && AllWhitespace(b)
    ensures CleanValue(a + "{" + v + "}," + b) == v
    ensures CleanValue(a + "{" + v + "}" + b) == v
  {
    CleanValueBracedComma(a, v, b);
    CleanValueBracedPlain(a, v, b);
  }

  lemma CleanValueBracedComma(a: string, v: string, b: string)
    requires AllWhitespace(a) && AllWhitespace(b)
    ensures CleanValue(a + "{" + v + "}," + b) == v
  {
    var s := "{" + ((v + "}") + ",");
    assert a + s + b == a + "{" + v + "}," + b;
    TrimPadded(a, s, b);
    StripPrefixOf("{", (v + "}") + ",");
    StripSuffixOf(v + "}", ",");
    StripSuffixOf(v, "}");
  }

  lemma CleanValueBracedPlain(a: string, v: string, b: string)
    requires AllWhitespace(a) && AllWhitespace(b)
    ensures CleanValue(a + "{" + v + "}" + b) == v
  {
    var s := "{" + (v + "}");
    assert a + s + b == a + "{" + v + "}" + b;
    TrimPadded(a, s, b);
    StripPrefixOf("{", v + "}");
    assert (v + "}")[|v|] == '}';
    assert StripOptionalSuffix(v + "}", ",") == v + "}";
    StripSuffixOf(v, "}");
  }

  /** A line starting with `@` opens an entry under the key read from it. */
  lemma ClassifyOpening(line: string)
    requires StartsWith(line, '@') && '{' in line
    ensures Classify(line) == Opening(EntryKey(line))
  {
    assert !IsWhitespace(line[0]);
  }

  /** A line that is not blank, starts with neither `@` nor `}` and holds a `=` is a field line. */
  lemma ClassifyField(line: string)
    requires !AllWhitespace(line) && !StartsWith(line, '@') && !StartsWith(line, '}') && '=' in line
    ensures Classify(line) == Field(FieldName(line), FieldValue(line))
  {
  }

  /** A line that is not blank, starts with neither `@` nor `}` and has no `=` is skipped. */
  lemma ClassifyNoEquals(line: string)
    requires !AllWhitespace(line) && !StartsWith(line, '@') && !StartsWith(line, '}') && '=' !in line
    ensures Classify(line) == NoEquals
  {
  }

  /** Indentation and a name free of `=`, followed by a space, hold no `=`. */
  lemma NameHeadShape(indent: string, name: string)
    requires AllWhitespace(indent) && '=' !in name
    ensures '=' !in indent + name + " "
  {
    assert '=' !in indent by {
      assert forall k :: 0 <= k < |indent| ==> indent[k] != '=';
    }
  }

  /** The name part of `indent + name + " = ..."` is `name`. */
  lemma FieldNameOf(indent: string, name: string, after: string)
    requires AllWhitespace(indent)
    requires name != [] && !IsWhitespace(name[0]) && !IsWhitespace(name[|name| - 1])
    requires '=' !in name
    ensures var line := indent + name + " =" + after;
            '=' in line && FieldName(line) == name && RawValue(line) == after[..IndexOf(after, '=')]
  {
    var before := indent + name + " ";
    assert indent + name + " =" + after == before + ['='] + after;
    NameHeadShape(indent, name);
    TrimPadded(indent, name, " ");
    FieldPartsAfter(before, after, name);
  }

  /** The parts of `before + "=" + after` when `before` holds no `=`. */
  lemma FieldPartsAfter(before: string, after: string, name: string)
    requires '=' !in before && Trim(before) == name
    ensures var line := before + ['='] + after;
            '=' in line && FieldName(line) == name && RawValue(line) == after[..IndexOf(after, '=')]
  {
    var line := before + ['='] + after;
    IndexOfAfter(before, '=', after);
    assert line[..|before|] == before;
    assert line[|before| + 1..] == after;
  }

  /** The value part of `name = {value},` holds no `=` when `value` holds none, and cleans to `value`. */
  lemma BracedValueShape(value: string)
    requires '=' !in value
    ensures var after := " " + "{" + value + "},";
            '=' !in after && CleanValue(after) == value
  {
    BracedNoEquals(value);
    CleanValueBracedComma(" ", value, "");
    assert " " + "{" + value + "}," + "" == " " + "{" + value + "},";
  }

  lemma BracedNoEquals(value: string)
    requires '=' !in value
    ensures '=' !in " " + "{" + value + "},"
  {
    var after := " " + "{" + value + "},";
    assert forall k :: 0 <= k < |after| ==> after[k] != '=' by {
      assert forall k :: 2 <= k < 2 + |value| ==> after[k] == value[k - 2];
    }
  }

  /** A line `indent + name + " =" + after` with a name that starts with neither `@` nor `}` is neither blank, an opening nor a closing. */
  lemma FieldLineShape(indent: string, name: string, after: string)
    requires AllWhitespace(indent)
    requires name != [] && name[0] != '@' && name[0] != '}'
    ensures var line := indent + name + " =" + after;
            !AllWhitespace(line) && !StartsWith(line, '@') && !StartsWith(line, '}') && '=' in line
  {
    var line := indent + name + " =" + after;
    assert line[|indent| + |name| + 1] == '=';
    if indent != [] {
      assert line[0] == indent[0];
    } else {
      assert line[0] == name[0];
    }
  }

  /**
    A field line in the usual form, `name = {value},` after some indentation,
    is read as a field holding `value` under `name`.
   */
  lemma FieldLineRead(indent: string, name: string, value: string)
    requires AllWhitespace(indent)
    requires name != [] && !IsWhitespace(name[0]) && !IsWhitespace(name[|name| - 1])
    requires name[0] != '@' && name[0] != '}'
    requires '=' !in name && '=' !in value
    ensures Classify(indent + name + " = {" + value + "},") == Field(name, value)
  {
    var after := " " + "{" + value + "},";
    assert indent + name + " = {" + value + "}," == indent + name + " =" + after;
    FieldLineShape(indent, name, after);
    FieldNameOf(indent, name, after);
    BracedValueShape(value);
    FieldLineOf(indent + name + " =" + after, name, after, value);
  }

  /** A field line whose name part reads `name` and whose value part, free of `=`, cleans to `value`. */
  lemma FieldLineOf(line: string, name: string, after: string, value: string)
    requires !AllWhitespace(line) && !StartsWith(line, '@') && !StartsWith(line, '}') && '=' in line
    requires FieldName(line) == name && RawValue(line) == after[..IndexOf(after, '=')]
    requires '=' !in after && CleanValue(after) == value
    ensures Classify(line) == Field(name, value)
  {
    assert after[..|after|] == after;
    ClassifyField(line);
  }
}
