/** The OBO reader of `obo_to_sqlite.py`: the line loop of `main` that
    gathers one `[Term]` block at a time into a record, and `write_to_db`,
    which flattens a record into the five columns of the `hpo` table. The
    table itself is replaced by the sequence of rows that would be inserted,
    in insertion order. */
module OboLoader {
  import opened Text

  /** The term being read (`this_term`). A list key that was never seen is
      the empty list here: the source creates a list only together with its
      first value, so a present list is never empty. */
  datatype Record = Record(
    id: Option<string>,
    name: Option<string>,
    def: Option<string>,
    altIds: seq<string>,
    isAs: seq<string>)

  const EmptyRecord := Record(None, None, None, [], [])

  /** One row of the `hpo` table, in column order id, name, def, alt_id,
      is_a; `None` is SQL NULL. */
  datatype Row = Row(
    id: Option<string>,
    name: Option<string>,
    def: Option<string>,
    altId: Option<string>,
    isA: Option<string>)

  /** The two exceptions the loop can raise on a malformed line. */
  datatype LoadError =
    | UnpackError(line: string)    // no ": " in the line: the two-value unpack fails
    | DefIndexError(line: string)  // a `def` value without any '"'

  datatype Result<T> = Ok(value: T) | Err(error: LoadError)

  /** The loop's state: the rows written so far and the current record. */
  datatype Loader = Loader(rows: seq<Row>, term: Record)

  /** `';'.join(values)` for a present list, NULL for an absent one. */
  function JoinColumn(values: seq<string>): (col: Option<string>)
    ensures col.None? <==> values == []
    ensures col.Some? && NoSeparator(values, ';') ==> Split(col.value, ';') == values
  {
    if values == [] then None
    else
      SplitJoin(values, ';');
      Some(Join(values, ';'))
  }

  /** `write_to_db` without the INSERT: the row it would insert. */
  function WriteToDb(rec: Record): (row: Row)
    ensures row.id == rec.id && row.name == rec.name && row.def == rec.def
    ensures row.altId.None? <==> rec.altIds == []
    ensures row.isA.None? <==> rec.isAs == []
    ensures row.isA.Some? && NoSeparator(rec.isAs, ';') ==> Split(row.isA.value, ';') == rec.isAs
    ensures row.altId.Some? && NoSeparator(rec.altIds, ';') ==> Split(row.altId.value, ';') == rec.altIds
  {
    Row(rec.id, rec.name, rec.def, JoinColumn(rec.altIds), JoinColumn(rec.isAs))
  }

  /** The text of a `def` value between its first and second '"'
      (`value.split('"')[1]`), or `None` where that index does not exist. */
  function QuotedText(value: string): (r: Option<string>)
    ensures r.None? <==> '"' !in value
    ensures r.Some? ==> '"' !in r.value
  {
    var parts := Split(value, '"');
    if |parts| < 2 then None
    else
      QuotedTextCharacterized(value);
      Some(parts[1])
  }

  /** The quoted text starts right after the first '"' and runs to the next
      '"' or to the end. */
  lemma QuotedTextFound(value: string)
    requires '"' in value
    ensures exists i :: 0 <= i < |value| && '"' !in value[..i] && value[i] == '"'
                        && QuotedAfter(value[i + 1..], QuotedText(value).value)
  {
    QuotedTextCharacterized(value);
    var i := IndexOf(value, '"').value;
    assert '"' !in value[..i] && value[i] == '"';
  }

  /** `q` is what follows a quote up to the next quote, or to the end. */
  predicate QuotedAfter(tail: string, q: string)
  {
    |q| <= |tail| && tail[..|q|] == q && (|q| == |tail| || tail[|q|] == '"')
  }

  lemma QuotedTextCharacterized(value: string)
    ensures '"' in value <==> |Split(value, '"')| >= 2
    ensures |Split(value, '"')| >= 2 ==>
      var i := IndexOf(value, '"').value;
      QuotedAfter(value[i + 1..], Split(value, '"')[1])
  {
    match IndexOf(value, '"')
    case None =>
    case Some(i) =>
      var tail := value[i + 1..];
      assert Split(value, '"')[1] == Split(tail, '"')[0];
      match IndexOf(tail, '"')
      case None =>
      case Some(j) =>
        assert Split(tail, '"')[0] == tail[..j];
  }

  /** The `is_a` value kept: the text before the first '!', stripped
      (`value.split('!')[0].strip()`). */
  function IsAValue(value: string): (r: string)
    ensures '!' !in r
  {
    Strip(Split(value, '!')[0])
  }

  /** The value kept is the text before the first '!' (all of it when there
      is none), stripped. */
  lemma IsAValueCut(value: string)
    ensures exists k :: 0 <= k <= |value| && '!' !in value[..k] && (k == |value| || value[k] == '!')
                        && IsAValue(value) == Strip(value[..k])
  {
    var parts := Split(value, '!');
    match IndexOf(value, '!')
    case None =>
      assert value[..|value|] == value;
      assert IsAValue(value) == Strip(value[..|value|]);
    case Some(k) =>
      assert parts[0] == value[..k];
      assert IsAValue(value) == Strip(value[..k]);
  }

  /** One pass of the `for line in inf` loop body. */
  function FeedLine(st: Loader, line: string): (r: Result<Loader>)
    ensures r.Ok? ==> st.rows <= r.value.rows && |r.value.rows| <= |st.rows| + 1
  {
    var l := Rstrip(line);
    if l == "" then Ok(st)
    else if l == "[Term]" then
      Ok(Loader(if st.term != EmptyRecord then st.rows + [WriteToDb(st.term)] else st.rows,
                EmptyRecord))
    else match SplitOnce(l, ": ")
      case None => Err(UnpackError(l))
      case Some((key, value)) =>
        match FeedField(st.term, key, value, l)
        case Err(e) => Err(e)
        case Ok(term) => Ok(st.(term := term))
  }

  /** A line that is empty once right-stripped changes nothing. */
  lemma FeedBlankLine(st: Loader, line: string)
    requires Rstrip(line) == ""
    ensures FeedLine(st, line) == Ok(st)
  {
  }

  /** A `[Term]` line writes the current record if it is not empty, and
      starts a new empty one. */
  lemma FeedTermLine(st: Loader, line: string)
    requires Rstrip(line) == "[Term]"
    ensures st.term != EmptyRecord ==> FeedLine(st, line) == Ok(Loader(st.rows + [WriteToDb(st.term)], EmptyRecord))
    ensures st.term == EmptyRecord ==> FeedLine(st, line) == Ok(Loader(st.rows, EmptyRecord))
  {
  }

  /** Any other non-blank line without ": " fails to unpack. */
  lemma FeedUnsplittableLine(st: Loader, line: string)
    requires Rstrip(line) != "" && Rstrip(line) != "[Term]" && !Occurs(Rstrip(line), ": ")
    ensures FeedLine(st, line) == Err(UnpackError(Rstrip(line)))
  {
    SplitOnceCharacterized(Rstrip(line), ": ");
  }

  /** A `key: value` line acts on the current record only, as `FeedField` says;
      the rows written so far are unchanged. */
  lemma FeedFieldLine(st: Loader, line: string, key: string, value: string)
    requires Rstrip(line) != "" && Rstrip(line) != "[Term]"
    requires SplitOnce(Rstrip(line), ": ") == Some((key, value))
    ensures FeedLine(st, line) == match FeedField(st.term, key, value, Rstrip(line))
                                  case Err(e) => Err(e)
                                  case Ok(t) => Ok(Loader(st.rows, t))
  {
  }

  /** The effect of one `key: value` line (already right-stripped to `l`) on
      the current record; keys other than the five columns are ignored. */
  function FeedField(term: Record, key: string, value: string, l: string): (r: Result<Record>)
    ensures r.Err? <==> key == "def" && '"' !in value
  {
    if key == "id" then Ok(term.(id := Some(value)))
    else if key == "name" then Ok(term.(name := Some(value)))
    else if key == "def" then
      match QuotedText(value)
      case None => Err(DefIndexError(l))
      case Some(q) => Ok(term.(def := Some(q)))
    else if key == "alt_id" then Ok(term.(altIds := term.altIds + [value]))
    else if key == "is_a" then Ok(term.(isAs := term.isAs + [IsAValue(value)]))
    else Ok(term)
  }

  /** `id` and `name` are kept verbatim; a later line overwrites an earlier
      one. */
  lemma FieldIdName(term: Record, key: string, value: string, l: string)
    requires key == "id" || key == "name"
    ensures FeedField(term, key, value, l) ==
            Ok(if key == "id" then term.(id := Some(value)) else term.(name := Some(value)))
  {
  }

  /** `def` keeps the text between the first and the second '"' (or the end
      of the value when there is only one). */
  lemma FieldDef(term: Record, l: string, a: string, q: string, b: string)
    requires '"' !in a && '"' !in q && (b == "" || b[0] == '"')
    ensures FeedField(term, "def", a + "\"" + q + b, l) == Ok(term.(def := Some(q)))
  {
    var value := a + "\"" + q + b;
    assert value[..|a|] == a;
    IndexOfFirst(value, '"', |a|);
    assert value[|a| + 1..] == q + b;
    var parts := Split(value, '"');
    assert parts[1] == Split(q + b, '"')[0];
    if b == "" {
      assert q + b == q;
    } else {
      assert (q + b)[..|q|] == q;
      IndexOfFirst(q + b, '"', |q|);
    }
  }

  /** A `def` value without any '"' raises IndexError. */
  lemma FieldDefUnquoted(term: Record, value: string, l: string)
    requires '"' !in value
    ensures FeedField(term, "def", value, l) == Err(DefIndexError(l))
  {
  }

  /** `alt_id` values accumulate in order of appearance and leave the other
      fields alone. */
  lemma FieldAltId(term: Record, value: string, l: string)
    ensures FeedField(term, "alt_id", value, l) == Ok(term.(altIds := term.altIds + [value]))
  {
  }

  /** `is_a` values accumulate in order of appearance, each cut at its first
      '!' and stripped. */
  lemma FieldIsA(term: Record, l: string, c: string, t: string)
    requires '!' !in c
    ensures FeedField(term, "is_a", c + "!" + t, l) == Ok(term.(isAs := term.isAs + [Strip(c)]))
    ensures FeedField(term, "is_a", c, l) == Ok(term.(isAs := term.isAs + [Strip(c)]))
  {
    var value := c + "!" + t;
    assert value[..|c|] == c;
    IndexOfFirst(value, '!', |c|);
    assert Split(value, '!')[0] == c;
  }

  lemma IndexOfFirst(s: string, ch: char, i: nat)
    requires i < |s| && s[i] == ch && ch !in s[..i]
    ensures IndexOf(s, ch) == Some(i)
  {
  }

  /** Keys other than the five columns are ignored. */
  lemma FieldOther(term: Record, key: string, value: string, l: string)
    requires key !in {"id", "name", "def", "alt_id", "is_a"}
    ensures FeedField(term, key, value, l) == Ok(term)
  {
  }

  /** The state after the first `n` lines, or the first error. */
  function FeedLines(lines: seq<string>, n: nat): (r: Result<Loader>)
    requires n <= |lines|
    ensures r.Ok? ==> |r.value.rows| <= n
  {
    if n == 0 then Ok(Loader([], EmptyRecord))
    else match FeedLines(lines, n - 1)
      case Err(e) => Err(e)
      case Ok(st) => FeedLine(st, lines[n - 1])
  }

  /** A malformed line aborts the load: the first error is the final one. */
  lemma {:induction false} FeedLinesErrorSticks(lines: seq<string>, i: nat, n: nat)
    requires i <= n <= |lines| && FeedLines(lines, i).Err?
    ensures FeedLines(lines, n) == FeedLines(lines, i)
    decreases n
  {
    if n > i {
      FeedLinesErrorSticks(lines, i, n - 1);
    }
  }

  /** An error after the first `i` lines is the result of the whole load. */
  lemma LoadLinesError(lines: seq<string>, i: nat)
    requires i <= |lines| && FeedLines(lines, i).Err?
    ensures LoadLines(lines) == Err(FeedLines(lines, i).error)
  {
    FeedLinesErrorSticks(lines, i, |lines|);
  }

  /** The rows `main` inserts for a whole file: the loop, then the
      unconditional final `write_to_db`. */
  function LoadLines(lines: seq<string>): (r: Result<seq<Row>>)
    ensures r.Ok? ==> 1 <= |r.value| <= |lines| + 1
  {
    match FeedLines(lines, |lines|)
    case Err(e) => Err(e)
    case Ok(st) => Ok(st.rows + [WriteToDb(st.term)])
  }

  /** The record read last is always written, even when it is empty: a file
      without any term still inserts one row of NULLs. */
  lemma LoadNoLines()
    ensures LoadLines([]) == Ok([Row(None, None, None, None, None)])
  {
    var lines: seq<string> := [];
    assert FeedLines(lines, |lines|) == Ok(Loader([], EmptyRecord));
    assert WriteToDb(EmptyRecord) == Row(None, None, None, None, None);
    assert LoadLines(lines) == Ok([] + [WriteToDb(EmptyRecord)]);
    assert [] + [WriteToDb(EmptyRecord)] == [Row(None, None, None, None, None)];
    assert lines == [];
  }

  /** A file whose last line is `[Term]` ends with a row of NULLs. */
  lemma LoadTrailingMarker(lines: seq<string>)
    requires |lines| > 0 && Rstrip(lines[|lines| - 1]) == "[Term]"
    requires FeedLines(lines, |lines| - 1).Ok?
    ensures LoadLines(lines).Ok?
    ensures var rows := LoadLines(lines).value;
            rows[|rows| - 1] == Row(None, None, None, None, None)
  {
    FeedTermLine(FeedLines(lines, |lines| - 1).value, lines[|lines| - 1]);
  }

  /** Non-empty, and neither starts nor ends with whitespace. */
  predicate Trimmed(s: string)
  {
    s != [] && !IsSpace(s[0]) && !IsSpace(s[|s| - 1])
  }

  /** One block `[Term]`, `id: I`, `name: N`, `is_a: P ! C`: the comment is
      stripped, the missing `def` and `alt_id` are NULL, and the leading
      `[Term]` writes nothing because the record before it is empty. */
  lemma LoadOneTerm(id: string, name: string, parent: string, comment: string)
    requires Trimmed(id) && Trimmed(name) && Trimmed(parent) && Trimmed(comment)
    requires '!' !in parent
    ensures LoadLines(["[Term]", "id: " + id, "name: " + name, "is_a: " + parent + " ! " + comment])
         == Ok([Row(Some(id), Some(name), None, None, Some(parent))])
  {
    var lines := ["[Term]", "id: " + id, "name: " + name, "is_a: " + parent + " ! " + comment];
    var t3 := EmptyRecord.(id := Some(id), name := Some(name), isAs := [parent]);
    OneTermFeed(lines, id, name, parent, comment);
    assert |lines| == 4;
    assert LoadLines(lines) == Ok([] + [WriteToDb(t3)]);
    assert [] + [WriteToDb(t3)] == [Row(Some(id), Some(name), None, None, Some(parent))];
  }

  /** The four lines of `LoadOneTerm`, fed one by one. */
  lemma OneTermFeed(lines: seq<string>, id: string, name: string, parent: string, comment: string)
    requires Trimmed(id) && Trimmed(name) && Trimmed(parent) && Trimmed(comment)
    requires '!' !in parent
    requires lines == ["[Term]", "id: " + id, "name: " + name, "is_a: " + parent + " ! " + comment]
    ensures FeedLines(lines, 4) == Ok(Loader([], EmptyRecord.(id := Some(id), name := Some(name), isAs := [parent])))
  {
    var t1 := EmptyRecord.(id := Some(id));
    var t2 := t1.(name := Some(name));
    OneTermMarker(lines[0]);
    assert FeedLines(lines, 1) == Ok(Loader([], EmptyRecord));
    OneTermLine(EmptyRecord, lines[1], "id", id);
    assert FeedLines(lines, 2) == Ok(Loader([], t1));
    OneTermLine(t1, lines[2], "name", name);
    assert FeedLines(lines, 3) == Ok(Loader([], t2));
    OneTermIsA(t2, lines[3], parent, comment);
  }

  lemma OneTermMarker(line: string)
    requires line == "[Term]"
    ensures FeedLine(Loader([], EmptyRecord), line) == Ok(Loader([], EmptyRecord))
  {
    assert Rstrip(line) == line;
    FeedTermLine(Loader([], EmptyRecord), line);
  }

  lemma OneTermLine(term: Record, line: string, key: string, value: string)
    requires line == key + ": " + value && |key| >= 1 && ' ' !in key && Trimmed(value)
    requires key == "id" || key == "name"
    ensures FeedLine(Loader([], term), line)
         == Ok(Loader([], if key == "id" then term.(id := Some(value)) else term.(name := Some(value))))
  {
    OneTermLineSplit(line, key, value);
    FeedFieldLine(Loader([], term), line, key, value);
    FieldIdName(term, key, value, line);
  }

  /** A trimmed `key: value` line whose key has no space unpacks to
      `(key, value)`. */
  lemma OneTermLineSplit(line: string, key: string, value: string)
    requires line == key + ": " + value && |key| >= 1 && ' ' !in key && Trimmed(value)
    ensures Rstrip(line) == line && Rstrip(line) != "" && Rstrip(line) != "[Term]"
    ensures SplitOnce(line, ": ") == Some((key, value))
  {
    assert Rstrip(line) == line;
    forall j | 0 <= j < |key| ensures !OccursAt(line, ": ", j) {
      assert line[j + 1] == if j + 1 < |key| then key[j + 1] else ':';
    }
    SplitOnceAt(line, ": ", key, value);
    assert line[|key| + 1] == ' ';
  }

  lemma OneTermIsA(term: Record, line: string, parent: string, comment: string)
    requires term.isAs == [] && Trimmed(parent) && Trimmed(comment) && '!' !in parent
    requires line == "is_a: " + parent + " ! " + comment
    ensures FeedLine(Loader([], term), line) == Ok(Loader([], term.(isAs := [parent])))
  {
    var c, t := parent + " ", " " + comment;
    var value := c + "!" + t;
    assert line == "is_a: " + value;
    OneTermIsASplit(line, value);
    FeedFieldLine(Loader([], term), line, "is_a", value);
    OneTermIsAValue(term, line, parent, comment);
  }

  /** `is_a: V` splits at its first ": " into `is_a` and `V`. */
  lemma OneTermIsASplit(line: string, value: string)
    requires line == "is_a: " + value && !IsSpace(line[|line| - 1])
    ensures Rstrip(line) == line && SplitOnce(line, ": ") == Some(("is_a", value))
  {
    assert Rstrip(line) == line;
    assert line == "is_a" + ": " + value;
    assert line[..4] == "is_a" && line[4] == ':';
    forall j | 0 <= j < 4 ensures !OccursAt(line, ": ", j) {
      assert line[j + 1] == if j + 1 < 4 then line[..4][j + 1] else ':';
    }
    SplitOnceAt(line, ": ", "is_a", value);
  }

  /** The value `P ! C` stores the parent `P`. */
  lemma OneTermIsAValue(term: Record, line: string, parent: string, comment: string)
    requires term.isAs == [] && Trimmed(parent) && Trimmed(comment) && '!' !in parent
    ensures FeedField(term, "is_a", (parent + " ") + "!" + (" " + comment), line) == Ok(term.(isAs := [parent]))
  {
    StripTrimmed(parent, " ");
    assert term.isAs + [Strip(parent + " ")] == [parent];
    FieldIsA(term, line, parent + " ", " " + comment);
  }

  /** The reading loop of `main`, line by line, stopping at the first line
      that raises. */
  method Load(lines: seq<string>) returns (r: Result<seq<Row>>)
    ensures r == LoadLines(lines)
  {
    var rows: seq<Row> := [];
    var thisTerm := EmptyRecord;
    for i := 0 to |lines|
      invariant FeedLines(lines, i) == Ok(Loader(rows, thisTerm))
    {
      assert FeedLines(lines, i + 1) == FeedLine(Loader(rows, thisTerm), lines[i]);
      var next := ReadLine(rows, thisTerm, lines[i]);
      if next.Err? {
        LoadLinesError(lines, i + 1);
        return Err(next.error);
      }
      rows, thisTerm := next.value.rows, next.value.term;
    }
    r := Ok(rows + [WriteToDb(thisTerm)]);
  }

  /** The body of the reading loop for one line: `continue` returns the new
      state, a raised error returns `Err`. */
  method ReadLine(rows: seq<Row>, thisTerm: Record, rawLine: string) returns (r: Result<Loader>)
    ensures r == FeedLine(Loader(rows, thisTerm), rawLine)
  {
    var line := Rstrip(rawLine);
    if line == "" {
      return Ok(Loader(rows, thisTerm));
    }
    if line == "[Term]" {
      if thisTerm != EmptyRecord {
        return Ok(Loader(rows + [WriteToDb(thisTerm)], EmptyRecord));
      }
      return Ok(Loader(rows, EmptyRecord));
    }
    var kv := SplitOnce(line, ": ");
    if kv.None? {
      return Err(UnpackError(line));
    }
    var (key, value) := kv.value;
    var updated := StoreField(thisTerm, key, value, line);
    FeedFieldLine(Loader(rows, thisTerm), rawLine, key, value);
    if updated.Err? {
      return Err(updated.error);
    }
    return Ok(Loader(rows, updated.value));
  }

  /** The `if key ... elif` chain of the loop body, on the current record. */
  method StoreField(thisTerm: Record, key: string, value: string, line: string) returns (r: Result<Record>)
    ensures r == FeedField(thisTerm, key, value, line)
  {
    var term := thisTerm;
    if key == "id" || key == "name" {
      if key == "id" {
        term := term.(id := Some(value));
      } else {
        term := term.(name := Some(value));
      }
    } else if key == "def" {
      var q := QuotedText(value);
      if q.None? {
        return Err(DefIndexError(line));
      }
      term := term.(def := Some(q.value));
    } else if key == "alt_id" {
      term := term.(altIds := term.altIds + [value]);
    } else if key == "is_a" {
      term := term.(isAs := term.isAs + [IsAValue(value)]);
    }
    r := Ok(term);
  }
}
