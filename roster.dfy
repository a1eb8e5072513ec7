/** The value-level meaning of the roster kept by `StudentManagementSystem`
    (Task5.java): a record per student, the text `getAllStudents` renders,
    the lines `saveToFile` writes and `loadFromFile` reads, and what removing
    and editing by name do to the ordered list of records. The methods of the
    `Task5` module are proved against these functions. */
module Roster {
  import opened JavaLang

  /** The state of one `Student` object: its name, roll number and grade. */
  datatype Record = Record(name: string, rollNumber: Int32, grade: Int32)

  /** The exceptions the store throws: `IllegalArgumentException("Student not
      found.")`, `IllegalArgumentException("Invalid option.")` and the
      `NumberFormatException` of `Integer.parseInt`. */
  datatype Failure = NotFound | InvalidOption | NumberFormat {
    /** The message of the two exceptions the store raises itself. */
    function Message(): string
      requires !NumberFormat?
    {
      if NotFound? then "Student not found." else "Invalid option."
    }
  }

  /** An operation either completes or throws. */
  datatype Outcome = Done | Threw(failure: Failure)

  datatype Result<T> = Ok(value: T) | Err(failure: Failure)

  // ---------------------------------------------------------------------
  // getAllStudents

  /** The line `getAllStudents` appends for one student, newline included. */
  function Describe(r: Record): string {
    "Name: " + r.name + ", Roll Number: " + IntToString(r.rollNumber) + ", Grade: " + IntToString(r.grade) + "\n"
  }

  /** The text a `StringBuilder` holds after appending `render(x)` for every
      `x` of `xs`, in order. */
  function AppendAll<T>(xs: seq<T>, render: T -> string): string {
    if xs == [] then "" else AppendAll(xs[..|xs| - 1], render) + render(xs[|xs| - 1])
  }

  /** The whole text of `getAllStudents`: one line per record, in list order. */
  function Listing(rs: seq<Record>): string {
    AppendAll(rs, Describe)
  }

  /** Occurrences of `c` in `s`. */
  function CountChar(s: string, c: char): nat {
    if s == [] then 0 else CountChar(s[..|s| - 1], c) + (if s[|s| - 1] == c then 1 else 0)
  }

  lemma {:induction false} CountCharConcat(a: string, b: string, c: char)
    ensures CountChar(a + b, c) == CountChar(a, c) + CountChar(b, c)
  {
    if b == [] {
      assert a + b == a;
    } else {
      CountCharConcat(a, b[..|b| - 1], c);
      assert (a + b)[..|a + b| - 1] == a + b[..|b| - 1];
      assert (a + b)[|a + b| - 1] == b[|b| - 1];
    }
  }

  lemma {:induction false} CountCharAbsent(s: string, c: char)
    requires c !in s
    ensures CountChar(s, c) == 0
  {
    if s != [] {
      CountCharAbsent(s[..|s| - 1], c);
    }
  }

  lemma AppendAllSnoc<T>(xs: seq<T>, x: T, render: T -> string)
    ensures AppendAll(xs + [x], render) == AppendAll(xs, render) + render(x)
  {
    assert (xs + [x])[..|xs|] == xs;
  }

  /** One more iteration of the appending loop. */
  lemma AppendAllStep<T>(xs: seq<T>, i: nat, render: T -> string)
    requires i < |xs|
    ensures AppendAll(xs[..i + 1], render) == AppendAll(xs[..i], render) + render(xs[i])
  {
    assert xs[..i + 1][..i] == xs[..i];
  }

  lemma {:induction false} AppendAllConcat<T>(a: seq<T>, b: seq<T>, render: T -> string)
    ensures AppendAll(a + b, render) == AppendAll(a, render) + AppendAll(b, render)
  {
    if b == [] {
      assert a + b == a;
    } else {
      var init, last := b[..|b| - 1], b[|b| - 1];
      AppendAllConcat(a, init, render);
      assert b == init + [last] && a + b == (a + init) + [last];
      AppendAllSnoc(a + init, last, render);
      AppendAllSnoc(init, last, render);
    }
  }

  /** When every piece holds `c` exactly once and ends with it, the text holds
      `c` once per piece and, unless empty, ends with it. */
  lemma {:induction false} AppendAllTerminated<T>(xs: seq<T>, render: T -> string, c: char)
    requires forall i :: 0 <= i < |xs| ==> CountChar(render(xs[i]), c) == 1
    requires forall i :: 0 <= i < |xs| ==> |render(xs[i])| >= 1 && render(xs[i])[|render(xs[i])| - 1] == c
    ensures CountChar(AppendAll(xs, render), c) == |xs|
    ensures AppendAll(xs, render) == "" <==> xs == []
    ensures xs != [] ==> AppendAll(xs, render)[|AppendAll(xs, render)| - 1] == c
  {
    if xs != [] {
      var init, last := xs[..|xs| - 1], xs[|xs| - 1];
      AppendAllTerminated(init, render, c);
      CountCharConcat(AppendAll(init, render), render(last), c);
    }
  }

  /** A record whose name holds no line break renders as exactly one line. */
  lemma DescribeOneLine(r: Record)
    requires '\n' !in r.name
    ensures CountChar(Describe(r), '\n') == 1
    ensures |Describe(r)| >= 1 && Describe(r)[|Describe(r)| - 1] == '\n'
  {
    IntToStringPlain(r.rollNumber);
    IntToStringPlain(r.grade);
    var body := "Name: " + r.name + ", Roll Number: " + IntToString(r.rollNumber) + ", Grade: " + IntToString(r.grade);
    assert Describe(r) == body + "\n";
    assert '\n' !in body;
    CountCharAbsent(body, '\n');
    CountCharConcat(body, "\n", '\n');
  }

  /** The listing of a concatenation is the concatenation of the listings:
      records are rendered in list order. */
  lemma ListingConcat(a: seq<Record>, b: seq<Record>)
    ensures Listing(a + b) == Listing(a) + Listing(b)
  {
    AppendAllConcat(a, b, Describe);
  }

  /** `getAllStudents` yields one newline-terminated line per record (names
      without line breaks), and the empty text exactly for an empty list. */
  lemma ListingLines(rs: seq<Record>)
    requires forall i :: 0 <= i < |rs| ==> '\n' !in rs[i].name
    ensures CountChar(Listing(rs), '\n') == |rs|
    ensures Listing(rs) == "" <==> rs == []
    ensures rs != [] ==> Listing(rs)[|Listing(rs)| - 1] == '\n'
  {
    forall i | 0 <= i < |rs|
      ensures CountChar(Describe(rs[i]), '\n') == 1
      ensures |Describe(rs[i])| >= 1 && Describe(rs[i])[|Describe(rs[i])| - 1] == '\n'
    {
      DescribeOneLine(rs[i]);
    }
    AppendAllTerminated(rs, Describe, '\n');
  }

  lemma AppendAllTwo<T>(x: T, y: T, render: T -> string)
    ensures AppendAll([x, y], render) == render(x) + render(y)
  {
    AppendAllSnoc([], x, render);
    AppendAllSnoc([x], y, render);
    assert [] + [x] == [x] && [x] + [y] == [x, y];
  }

  lemma DescribeAlice()
    ensures Describe(Record("Alice", 1, 90)) == "Name: Alice, Roll Number: 1, Grade: 90\n"
  {
    assert IntToString(1) == "1" by {
      IntToStringSmall(1);
    }
    assert IntToString(90) == "90" by {
      IntToStringSmall(90);
    }
    assert "Name: " + "Alice" + ", Roll Number: " == "Name: Alice, Roll Number: ";
    assert "Name: Alice, Roll Number: " + "1" + ", Grade: " == "Name: Alice, Roll Number: 1, Grade: ";
    assert "Name: Alice, Roll Number: 1, Grade: " + "90" + "\n" == "Name: Alice, Roll Number: 1, Grade: 90\n";
  }

  lemma DescribeBob()
    ensures Describe(Record("Bob", 2, 85)) == "Name: Bob, Roll Number: 2, Grade: 85\n"
  {
    assert IntToString(2) == "2" by {
      IntToStringSmall(2);
    }
    assert IntToString(85) == "85" by {
      IntToStringSmall(85);
    }
    assert "Name: " + "Bob" + ", Roll Number: " == "Name: Bob, Roll Number: ";
    assert "Name: Bob, Roll Number: " + "2" + ", Grade: " == "Name: Bob, Roll Number: 2, Grade: ";
    assert "Name: Bob, Roll Number: 2, Grade: " + "85" + "\n" == "Name: Bob, Roll Number: 2, Grade: 85\n";
  }

  /** The listing after adding Alice (1, 90) and then Bob (2, 85). */
  lemma ListingExample()
    ensures Listing([Record("Alice", 1, 90), Record("Bob", 2, 85)])
         == "Name: Alice, Roll Number: 1, Grade: 90\n" + "Name: Bob, Roll Number: 2, Grade: 85\n"
  {
    AppendAllTwo(Record("Alice", 1, 90), Record("Bob", 2, 85), Describe);
    DescribeAlice();
    DescribeBob();
  }

  // ---------------------------------------------------------------------
  // Lookup by name, ignoring case

  /** The index of the first record whose name equals `name` ignoring case. */
  function FindFirst(rs: seq<Record>, name: string): (k: Option<nat>)
    ensures k.Some? ==> k.value < |rs| && EqualsIgnoreCase(rs[k.value].name, name)
    ensures k.Some? ==> forall j :: 0 <= j < k.value ==> !EqualsIgnoreCase(rs[j].name, name)
    ensures k.None? ==> forall j :: 0 <= j < |rs| ==> !EqualsIgnoreCase(rs[j].name, name)
  {
    if rs == [] then None
    else if EqualsIgnoreCase(rs[0].name, name) then Some(0)
    else match FindFirst(rs[1..], name)
      case None => None
      case Some(k) => Some(k + 1)
  }

  /** The first match is the index that matches with no match before it. */
  lemma FindFirstAt(rs: seq<Record>, name: string, k: nat)
    requires k < |rs| && EqualsIgnoreCase(rs[k].name, name)
    requires forall j :: 0 <= j < k ==> !EqualsIgnoreCase(rs[j].name, name)
    ensures FindFirst(rs, name) == Some(k)
  {
  }

  /** The number of records whose name equals `name` ignoring case. */
  function MatchCount(rs: seq<Record>, name: string): nat {
    if rs == [] then 0
    else (if EqualsIgnoreCase(rs[0].name, name) then 1 else 0) + MatchCount(rs[1..], name)
  }

  lemma {:induction false} MatchCountConcat(a: seq<Record>, b: seq<Record>, name: string)
    ensures MatchCount(a + b, name) == MatchCount(a, name) + MatchCount(b, name)
  {
    if a == [] {
      assert a + b == b;
    } else {
      MatchCountConcat(a[1..], b, name);
      assert (a + b)[1..] == a[1..] + b;
      assert (a + b)[0] == a[0];
    }
  }

  lemma {:induction false} MatchCountNone(rs: seq<Record>, name: string)
    requires forall j :: 0 <= j < |rs| ==> !EqualsIgnoreCase(rs[j].name, name)
    ensures MatchCount(rs, name) == 0
  {
    if rs != [] {
      MatchCountNone(rs[1..], name);
    }
  }

  // ---------------------------------------------------------------------
  // removeStudent

  /** The list after `removeStudent(name)`: the first match taken out, or
      `NotFound` when no record matches. */
  function Removed(rs: seq<Record>, name: string): Result<seq<Record>> {
    match FindFirst(rs, name)
    case None => Err(NotFound)
    case Some(k) => Ok(rs[..k] + rs[k + 1..])
  }

  /** Removal fails exactly when no name matches; otherwise exactly one
      matching record disappears, it is the first match, and putting it back
      at its index restores the list, so the others keep their order. */
  lemma RemovedSpec(rs: seq<Record>, name: string)
    ensures Removed(rs, name).Err? <==> MatchCount(rs, name) == 0
    ensures Removed(rs, name).Err? ==> Removed(rs, name).failure == NotFound
    ensures Removed(rs, name).Ok? ==>
      var r := Removed(rs, name).value;
      var k := FindFirst(rs, name).value;
      && |r| == |rs| - 1
      && MatchCount(r, name) == MatchCount(rs, name) - 1
      && rs == r[..k] + [rs[k]] + r[k..]
  {
    match FindFirst(rs, name)
    case None =>
      MatchCountNone(rs, name);
    case Some(k) =>
      var r := rs[..k] + rs[k + 1..];
      var pre, post := rs[..k], rs[k + 1..];
      assert rs == pre + ([rs[k]] + post);
      MatchCountConcat(pre, [rs[k]] + post, name);
      MatchCountConcat([rs[k]], post, name);
      assert MatchCount([rs[k]], name) == 1 by {
        assert [rs[k]][1..] == [];
      }
      MatchCountConcat(pre, post, name);
      assert r[..k] == pre && r[k..] == post;
  }

  // ---------------------------------------------------------------------
  // editStudent

  /** The record `r` with the field chosen by `option` set from `newValue`
      (0 name, 1 roll number, 2 grade), as the `switch` of `editStudent`. */
  function EditRecord(r: Record, option: int, newValue: string): Result<Record> {
    if option == 0 then Ok(r.(name := newValue))
    else if option == 1 then
      match ParseInt(newValue)
      case None => Err(NumberFormat)
      case Some(v) => Ok(r.(rollNumber := v))
    else if option == 2 then
      match ParseInt(newValue)
      case None => Err(NumberFormat)
      case Some(v) => Ok(r.(grade := v))
    else Err(InvalidOption)
  }

  /** The list after `editStudent(name, option, newValue)`: the first match
      edited in place, or the failure of the lookup or of the edit. */
  function Edited(rs: seq<Record>, name: string, option: int, newValue: string): Result<seq<Record>> {
    match FindFirst(rs, name)
    case None => Err(NotFound)
    case Some(k) =>
      match EditRecord(rs[k], option, newValue)
      case Err(f) => Err(f)
      case Ok(r) => Ok(rs[k := r])
  }

  /** The error cases of `editStudent`, in the order the code meets them: no
      match first, then an unknown option, then text that is not an `int`. */
  lemma EditedFailures(rs: seq<Record>, name: string, option: int, newValue: string)
    ensures Edited(rs, name, option, newValue) == Err(NotFound) <==> MatchCount(rs, name) == 0
    ensures Edited(rs, name, option, newValue) == Err(InvalidOption)
        <==> MatchCount(rs, name) > 0 && !(0 <= option <= 2)
    ensures Edited(rs, name, option, newValue) == Err(NumberFormat)
        <==> MatchCount(rs, name) > 0 && (option == 1 || option == 2) && ParseInt(newValue).None?
  {
    RemovedSpec(rs, name);
  }

  /** A successful edit changes only the selected field of the first match:
      every other record and every other field is as before. */
  lemma EditedChangesOneField(rs: seq<Record>, name: string, option: int, newValue: string)
    requires Edited(rs, name, option, newValue).Ok?
    ensures FindFirst(rs, name).Some? && 0 <= option <= 2
    ensures
      var r := Edited(rs, name, option, newValue).value;
      var k := FindFirst(rs, name).value;
      && |r| == |rs|
      && (forall j :: 0 <= j < |rs| && j != k ==> r[j] == rs[j])
      && r[k].name == (if option == 0 then newValue else rs[k].name)
      && r[k].rollNumber == (if option == 1 then ParseInt(newValue).value else rs[k].rollNumber)
      && r[k].grade == (if option == 2 then ParseInt(newValue).value else rs[k].grade)
  {
  }

  /** Typing back the rendering of an `int` into a numeric field stores that
      very `int`. */
  lemma EditWithRendered(rs: seq<Record>, name: string, n: Int32)
    requires FindFirst(rs, name).Some?
    ensures
      var k := FindFirst(rs, name).value;
      && Edited(rs, name, 1, IntToString(n)) == Ok(rs[k := rs[k].(rollNumber := n)])
      && Edited(rs, name, 2, IntToString(n)) == Ok(rs[k := rs[k].(grade := n)])
  {
    ParseIntToString(n);
  }

  /** Repeating a successful edit changes nothing more, provided the edited
      record still answers to the name (always so for a numeric field). */
  lemma EditIdempotent(rs: seq<Record>, name: string, option: int, newValue: string)
    requires Edited(rs, name, option, newValue).Ok?
    requires option == 0 ==> EqualsIgnoreCase(newValue, name)
    ensures
      var r := Edited(rs, name, option, newValue).value;
      Edited(r, name, option, newValue) == Ok(r)
  {
    var r := Edited(rs, name, option, newValue).value;
    var k := FindFirst(rs, name).value;
    EditedChangesOneField(rs, name, option, newValue);
    assert EqualsIgnoreCase(r[k].name, name);
    assert FindFirst(r, name) == Some(k);
    assert EditRecord(r[k], option, newValue) == Ok(r[k]);
    assert r[k := r[k]] == r;
  }

  // ---------------------------------------------------------------------
  // saveToFile / loadFromFile

  /** The line `saveToFile` prints for one student: `name,roll,grade`. */
  function FormatLine(r: Record): string {
    r.name + "," + IntToString(r.rollNumber) + "," + IntToString(r.grade)
  }

  /** `f` applied to every element, in order. */
  function MapSeq<A, B>(xs: seq<A>, f: A -> B): seq<B> {
    seq(|xs|, i requires 0 <= i < |xs| => f(xs[i]))
  }

  lemma MapSeqConcat<A, B>(a: seq<A>, b: seq<A>, f: A -> B)
    ensures MapSeq(a + b, f) == MapSeq(a, f) + MapSeq(b, f)
  {
  }

  lemma MapSeqSingle<A, B>(x: A, f: A -> B)
    ensures MapSeq([x], f) == [f(x)]
  {
  }

  /** Everything `saveToFile` writes: one line per record, in list order. */
  function SaveLines(rs: seq<Record>): seq<string> {
    MapSeq(rs, FormatLine)
  }

  /** What `loadFromFile` makes of one line. */
  datatype LineResult = Skipped | Accepted(record: Record) | BadNumber

  /** `line.split(",")`; a line of other than three parts is skipped, and
      the second and then the third part go through `Integer.parseInt`. */
  function ParseLine(line: string): LineResult {
    var parts := Split(line);
    if |parts| != 3 then Skipped
    else
      match ParseInt(parts[1])
      case None => BadNumber
      case Some(roll) =>
        match ParseInt(parts[2])
        case None => BadNumber
        case Some(grade) => Accepted(Record(parts[0], roll, grade))
  }

  /** A saved line reads back as the record it was written from, provided the
      name holds no comma. */
  lemma ParseFormatLine(r: Record)
    requires ',' !in r.name
    ensures ParseLine(FormatLine(r)) == Accepted(r)
  {
    IntToStringPlain(r.rollNumber);
    IntToStringPlain(r.grade);
    SplitThree(r.name, IntToString(r.rollNumber), IntToString(r.grade));
    ParseIntToString(r.rollNumber);
    ParseIntToString(r.grade);
  }

  /** The records a load appends, and whether a `NumberFormatException`
      cut it short. */
  datatype Loaded = Loaded(records: seq<Record>, aborted: bool)

  /** What the `readLine` loop of `loadFromFile` accumulates, given what each
      line gave: accepted records in file order, up to the first line whose
      numbers do not parse. */
  function Collect(results: seq<LineResult>): Loaded {
    if results == [] then Loaded([], false)
    else
      var done := Collect(results[..|results| - 1]);
      if done.aborted then done
      else
        match results[|results| - 1]
        case Skipped => done
        case Accepted(r) => Loaded(done.records + [r], false)
        case BadNumber => Loaded(done.records, true)
  }

  /** What each line of a file gives. */
  function LineResults(lines: seq<string>): seq<LineResult> {
    MapSeq(lines, ParseLine)
  }

  /** The effect of `loadFromFile` on a whole file. */
  function ParseLines(lines: seq<string>): Loaded {
    Collect(LineResults(lines))
  }

  lemma {:induction false} CollectConcat(a: seq<LineResult>, b: seq<LineResult>)
    ensures Collect(a + b) ==
      if Collect(a).aborted then Collect(a)
      else Loaded(Collect(a).records + Collect(b).records, Collect(b).aborted)
  {
    if b == [] {
      assert a + b == a;
    } else {
      var init := b[..|b| - 1];
      CollectConcat(a, init);
      assert (a + b)[..|a + b| - 1] == a + init;
      assert (a + b)[|a + b| - 1] == b[|b| - 1];
    }
  }

  lemma {:induction false} CollectAccepted(results: seq<LineResult>, rs: seq<Record>)
    requires |results| == |rs|
    requires forall i :: 0 <= i < |rs| ==> results[i] == Accepted(rs[i])
    ensures Collect(results) == Loaded(rs, false)
  {
    if rs != [] {
      CollectAccepted(results[..|results| - 1], rs[..|rs| - 1]);
      assert rs[..|rs| - 1] + [rs[|rs| - 1]] == rs;
    }
  }

  /** Round trip: what `saveToFile` writes, `loadFromFile` reads back as the
      same records in the same order, when no name holds a comma. */
  lemma LoadSaved(rs: seq<Record>)
    requires forall i :: 0 <= i < |rs| ==> ',' !in rs[i].name
    ensures ParseLines(SaveLines(rs)) == Loaded(rs, false)
  {
    var results := LineResults(SaveLines(rs));
    forall i | 0 <= i < |rs| ensures results[i] == Accepted(rs[i]) {
      ParseFormatLine(rs[i]);
    }
    CollectAccepted(results, rs);
  }

  /** Loading is line by line: a file read in two pieces gives the records of
      the first piece followed by those of the second, unless the first piece
      already aborted. */
  lemma ParseLinesConcat(a: seq<string>, b: seq<string>)
    ensures ParseLines(a + b) ==
      if ParseLines(a).aborted then ParseLines(a)
      else Loaded(ParseLines(a).records + ParseLines(b).records, ParseLines(b).aborted)
  {
    MapSeqConcat(a, b, ParseLine);
    CollectConcat(LineResults(a), LineResults(b));
  }

  /** Lines that add nothing and do not abort can be cut out of a file. */
  lemma ParseLinesNeutral(a: seq<string>, m: seq<string>, b: seq<string>)
    requires ParseLines(m) == Loaded([], false)
    ensures ParseLines(a + m + b) == ParseLines(a + b)
  {
    ParseLinesConcat(a, m);
    assert ParseLines(a + m) == ParseLines(a) by {
      assert ParseLines(a).records + [] == ParseLines(a).records;
    }
    ParseLinesConcat(a + m, b);
    ParseLinesConcat(a, b);
  }

  /** A line that does not split into exactly three parts contributes
      nothing, and the lines after it are still read. */
  lemma SkipMalformedLine(a: seq<string>, line: string, b: seq<string>)
    requires |Split(line)| != 3
    ensures ParseLines(a + [line] + b) == ParseLines(a + b)
  {
    assert ParseLines([line]) == Loaded([], false) by {
      MapSeqSingle(line, ParseLine);
      assert [Skipped][..0] == [];
    }
    ParseLinesNeutral(a, [line], b);
  }

  /** A three-part line with a number that does not parse ends the load;
      the records of the lines before it are kept, the lines after it are not
      read. */
  lemma AbortKeepsEarlier(a: seq<string>, line: string, b: seq<string>)
    requires !ParseLines(a).aborted
    requires ParseLine(line) == BadNumber
    ensures ParseLines(a + [line] + b) == Loaded(ParseLines(a).records, true)
  {
    assert ParseLines([line]) == Loaded([], true) by {
      MapSeqSingle(line, ParseLine);
      assert [BadNumber][..0] == [];
    }
    ParseLinesConcat(a, [line]);
    ParseLinesConcat(a + [line], b);
  }

  /** Once a line aborts the load, the lines after it are not read. */
  lemma CollectAbortsAt(results: seq<LineResult>, i: nat)
    requires i < |results| && results[i] == BadNumber
    requires !Collect(results[..i]).aborted
    ensures Collect(results) == Loaded(Collect(results[..i]).records, true)
  {
    var upTo := results[..i + 1];
    assert upTo[..i] == results[..i];
    assert Collect(upTo) == Loaded(Collect(results[..i]).records, true);
    assert results == upTo + results[i + 1..];
    CollectConcat(upTo, results[i + 1..]);
  }

  /** One step of the `readLine` loop: what line `i` does to the records
      gathered from the lines before it. */
  lemma CollectStep(results: seq<LineResult>, i: nat)
    requires i < |results| && !Collect(results[..i]).aborted
    ensures results[i].Skipped? ==> Collect(results[..i + 1]) == Collect(results[..i])
    ensures results[i].Accepted? ==>
      Collect(results[..i + 1]) == Loaded(Collect(results[..i]).records + [results[i].record], false)
    ensures results[i].BadNumber? ==> Collect(results) == Loaded(Collect(results[..i]).records, true)
  {
    assert results[..i + 1][..i] == results[..i];
    if results[i].BadNumber? {
      CollectAbortsAt(results, i);
    }
  }

  /** One line of the `readLine` loop, read after the lines before it. */
  lemma ParseLinesStep(lines: seq<string>, i: nat)
    requires i < |lines| && !ParseLines(lines[..i]).aborted
    ensures ParseLine(lines[i]).Skipped? ==> ParseLines(lines[..i + 1]) == ParseLines(lines[..i])
    ensures ParseLine(lines[i]).Accepted? ==>
      ParseLines(lines[..i + 1]) == Loaded(ParseLines(lines[..i]).records + [ParseLine(lines[i]).record], false)
    ensures ParseLine(lines[i]).BadNumber? ==>
      ParseLines(lines) == Loaded(ParseLines(lines[..i]).records, true)
  {
    var results := LineResults(lines);
    assert LineResults(lines[..i]) == results[..i];
    assert LineResults(lines[..i + 1]) == results[..i + 1];
    CollectStep(results, i);
  }

  /** Every accepted record comes from a distinct line. */
  lemma {:induction false} CollectBound(results: seq<LineResult>)
    ensures |Collect(results).records| <= |results|
  {
    if results != [] {
      CollectBound(results[..|results| - 1]);
    }
  }
}
