/**
 * The course catalogue of CS300ProjectTwo/CS300ProjectTwo.cpp: courses read from the
 * lines of a comma-separated file, listed in course-number order, and looked up by a
 * course number written in either case. The file is its sequence of lines, or `None`
 * when it cannot be opened; printing becomes returning what would be printed.
 */
module CourseCatalogue {
  import opened Lex

  datatype Option<T> = None | Some(value: T)

  /** `Course(num, title, prereqs)`. */
  datatype Course = Course(number: string, title: string, prerequisites: seq<string>)

  // ---------------------------------------------------------------------------
  // toUpperCase
  // ---------------------------------------------------------------------------

  predicate IsLower(c: char)
  {
    'a' <= c <= 'z'
  }

  /** `::toupper` in the "C" locale: the ASCII letters a-z become A-Z, all else stays. */
  function UpperChar(c: char): (u: char)
    ensures !IsLower(u)
    ensures IsLower(c) ==> u as int == c as int - ('a' as int - 'A' as int) && 'A' <= u <= 'Z'
    ensures !IsLower(c) ==> u == c
  {
    if IsLower(c) then (c as int - ('a' as int - 'A' as int)) as char else c
  }

  /** `toUpperCase`: a copy of `s` with every character passed through `::toupper`. */
  function ToUpper(s: string): (r: string)
    ensures |r| == |s|
    ensures forall i :: 0 <= i < |s| ==> r[i] == UpperChar(s[i])
  {
    if s == [] then [] else [UpperChar(s[0])] + ToUpper(s[1..])
  }

  /** Nothing lower-case is left, and a string with nothing lower-case is its own upper case. */
  lemma ToUpperNoLower(s: string)
    ensures forall i :: 0 <= i < |s| ==> !IsLower(ToUpper(s)[i])
    ensures (forall i :: 0 <= i < |s| ==> !IsLower(s[i])) <==> ToUpper(s) == s
  {
    if forall i :: 0 <= i < |s| ==> !IsLower(s[i]) {
      assert ToUpper(s) == s;
    }
    if ToUpper(s) == s {
      forall i | 0 <= i < |s|
        ensures !IsLower(s[i])
      {
        assert s[i] == ToUpper(s)[i];
      }
    }
  }

  /** Upper-casing twice is upper-casing once. */
  lemma ToUpperIdempotent(s: string)
    ensures ToUpper(ToUpper(s)) == ToUpper(s)
  {
    ToUpperNoLower(s);
    ToUpperNoLower(ToUpper(s));
  }

  // ---------------------------------------------------------------------------
  // Splitting a line with getline(ss, item, ',')
  // ---------------------------------------------------------------------------

  /** Index of the first comma at or after `pos`, or `|line|` when there is none. */
  function NextComma(line: string, pos: nat): (k: nat)
    requires pos <= |line|
    ensures pos <= k <= |line|
    ensures k < |line| ==> line[k] == ','
    decreases |line| - pos
  {
    if pos == |line| then pos
    else if line[pos] == ',' then pos
    else NextComma(line, pos + 1)
  }

  /** No comma lies between `pos` and the comma found. */
  lemma {:induction false} NextCommaFirst(line: string, pos: nat)
    requires pos <= |line|
    ensures forall j :: pos <= j < NextComma(line, pos) ==> line[j] != ','
    decreases |line| - pos
  {
    if pos < |line| && line[pos] != ',' {
      NextCommaFirst(line, pos + 1);
    }
  }

  /** A comma at `k`, or the end, with no comma from `pos` up to it, is the one found. */
  lemma {:induction false} NextCommaIs(line: string, pos: nat, k: nat)
    requires pos <= k <= |line|
    requires forall j :: pos <= j < k ==> line[j] != ','
    requires k < |line| ==> line[k] == ','
    ensures NextComma(line, pos) == k
    decreases |line| - pos
  {
    if pos < k {
      NextCommaIs(line, pos + 1, k);
    }
  }

  /**
   * The items `getline(ss, item, ',')` extracts from `line` once the stream stands at
   * `pos`, in order: each call reads up to the next comma and consumes it, and a call
   * that finds the stream already at its end fails, so no characters left means no
   * more items, and a trailing comma adds no empty item.
   */
  function FieldsFrom(line: string, pos: nat): (r: seq<string>)
    requires pos <= |line|
    ensures |r| == 0 <==> pos == |line|
    decreases |line| - pos
  {
    if pos == |line| then []
    else
      var k := NextComma(line, pos);
      if k == |line| then [line[pos..]] else [line[pos..k]] + FieldsFrom(line, k + 1)
  }

  /** The fields of a whole line: none exactly when the line is empty. */
  function Fields(line: string): (r: seq<string>)
    ensures |r| == 0 <==> line == []
  {
    FieldsFrom(line, 0)
  }

  /** The fields joined back with commas between them. */
  function Join(fields: seq<string>): string
  {
    if fields == [] then []
    else if |fields| == 1 then fields[0]
    else fields[0] + [','] + Join(fields[1..])
  }

  /** One item of the split: from `pos` it extends to the comma at `at`, or to the end. */
  lemma FieldsStep(line: string, pos: nat, at: nat)
    requires pos < |line| && pos <= at <= |line|
    requires forall j :: pos <= j < at ==> line[j] != ','
    requires at < |line| ==> line[at] == ','
    ensures at < |line| ==> FieldsFrom(line, pos) == [line[pos..at]] + FieldsFrom(line, at + 1)
    ensures at == |line| ==> FieldsFrom(line, pos) == [line[pos..at]]
  {
    NextCommaIs(line, pos, at);
    assert at == |line| ==> line[pos..at] == line[pos..];
  }

  /** An empty line has no fields, and a lone comma one empty field. */
  lemma FieldsOfComma()
    ensures Fields("") == []
    ensures Fields(",") == [""]
  {
    FieldsStep(",", 0, 0);
  }

  /** A trailing comma adds no empty field. */
  lemma FieldsTrailingComma()
    ensures Fields("a,b,") == ["a", "b"]
  {
    FieldsStep("a,b,", 0, 1);
    FieldsStep("a,b,", 2, 3);
    assert "a,b,"[0..1] == "a" && "a,b,"[2..3] == "b";
  }

  /** Two commas in a row enclose an empty field. */
  lemma FieldsDoubleComma()
    ensures Fields("a,,b") == ["a", "", "b"]
  {
    FieldsStep("a,,b", 0, 1);
    FieldsStep("a,,b", 2, 2);
    FieldsStep("a,,b", 3, 4);
    assert "a,,b"[0..1] == "a" && "a,,b"[2..2] == "" && "a,,b"[3..4] == "b";
  }

  /** No field holds a comma. */
  lemma {:induction false} FieldsNoComma(line: string, pos: nat)
    requires pos <= |line|
    ensures forall i, j :: 0 <= i < |FieldsFrom(line, pos)| && 0 <= j < |FieldsFrom(line, pos)[i]| ==>
      FieldsFrom(line, pos)[i][j] != ','
    decreases |line| - pos
  {
    if pos < |line| {
      var k := NextComma(line, pos);
      NextCommaFirst(line, pos);
      if k < |line| {
        FieldsNoComma(line, k + 1);
      }
    }
  }

  lemma JoinCons(x: string, rest: seq<string>)
    requires rest != []
    ensures Join([x] + rest) == x + [','] + Join(rest)
  {
    assert ([x] + rest)[1..] == rest;
  }

  /** The line from `pos`, less a final comma. */
  function Trimmed(line: string, pos: nat): string
    requires pos <= |line|
  {
    if pos < |line| && line[|line| - 1] == ',' then line[pos..|line| - 1] else line[pos..]
  }

  /** Joining the fields gives the rest of the line back, less a final comma. */
  lemma {:induction false} JoinFieldsFrom(line: string, pos: nat, fs: seq<string>)
    requires pos <= |line| && fs == FieldsFrom(line, pos)
    ensures Join(fs) == Trimmed(line, pos)
    decreases |line| - pos
  {
    if pos == |line| {
      assert line[pos..] == [];
    } else {
      var k := NextComma(line, pos);
      FieldsUnfold(line, pos);
      if k + 1 < |line| {
        var rest := FieldsFrom(line, k + 1);
        JoinFieldsFrom(line, k + 1, rest);
        JoinFieldsStep(line, pos, k, fs, rest);
      } else if k == |line| {
        NextCommaFirst(line, pos);
      }
    }
  }

  /** The joined items from `pos` are the first item, a comma, and the joined items after it. */
  lemma JoinFieldsStep(line: string, pos: nat, k: nat, fs: seq<string>, rest: seq<string>)
    requires pos <= k && k + 1 < |line| && line[k] == ','
    requires fs == [line[pos..k]] + rest && rest != []
    requires Join(rest) == Trimmed(line, k + 1)
    ensures Join(fs) == Trimmed(line, pos)
  {
    var e := if line[|line| - 1] == ',' then |line| - 1 else |line|;
    JoinCons(line[pos..k], rest);
    assert line[pos..e] == line[pos..k] + [','] + line[k + 1..e];
  }

  /** The first item of the split from `pos`, and the items after it. */
  lemma FieldsUnfold(line: string, pos: nat)
    requires pos < |line|
    ensures var k := NextComma(line, pos);
      FieldsFrom(line, pos) == if k == |line| then [line[pos..]] else [line[pos..k]] + FieldsFrom(line, k + 1)
  {
  }

  /** Joining the fields of a line gives the line back, less a final comma. */
  lemma JoinFields(line: string)
    ensures line == [] || line[|line| - 1] != ',' ==> Join(Fields(line)) == line
    ensures line != [] && line[|line| - 1] == ',' ==> Join(Fields(line)) + [','] == line
  {
    JoinFieldsFrom(line, 0, Fields(line));
    assert line[0..] == line;
  }

  predicate NoComma(f: string)
  {
    forall j :: 0 <= j < |f| ==> f[j] != ','
  }

  /** Fields free of commas whose last one, if any, is not empty: what a split can yield. */
  predicate Splittable(fs: seq<string>)
  {
    && (forall i :: 0 <= i < |fs| ==> NoComma(fs[i]))
    && (fs != [] ==> fs[|fs| - 1] != [])
  }

  /** Splitting comma-joined fields that fill the line from `a` gives the fields back. */
  lemma {:induction false} FieldsJoinFrom(line: string, a: nat, fs: seq<string>)
    requires a <= |line| && line[a..] == Join(fs) && Splittable(fs)
    ensures FieldsFrom(line, a) == fs
    decreases |fs|
  {
    if fs == [] {
      assert |line[a..]| == 0;
    } else if |fs| == 1 {
      FieldsLast(line, a, fs[0]);
    } else {
      var k := a + |fs[0]|;
      assert Splittable(fs[1..]) by {
        assert forall i :: 0 <= i < |fs| - 1 ==> fs[1..][i] == fs[i + 1];
      }
      JoinedLayout(line, a, k, fs);
      FieldsJoinFrom(line, k + 1, fs[1..]);
      FieldsJoinStep(line, a, k, fs);
    }
  }

  /** How the first field and its comma lie in a joined line. */
  lemma JoinedLayout(line: string, a: nat, k: nat, fs: seq<string>)
    requires |fs| >= 2 && a <= |line| && line[a..] == Join(fs) && k == a + |fs[0]|
    ensures k < |line| && line[a..k] == fs[0] && line[k] == ','
    ensures line[k + 1..] == Join(fs[1..])
  {
    assert fs == [fs[0]] + fs[1..];
    JoinCons(fs[0], fs[1..]);
    assert line[a..] == fs[0] + [','] + Join(fs[1..]);
    assert line[a..][..|fs[0]|] == line[a..k];
    assert line[a..][|fs[0]| + 1..] == line[k + 1..];
  }

  /** The first field, then the fields after its comma. */
  lemma FieldsJoinStep(line: string, a: nat, k: nat, fs: seq<string>)
    requires |fs| >= 2 && NoComma(fs[0])
    requires a <= k < |line| && line[a..k] == fs[0] && line[k] == ','
    requires FieldsFrom(line, k + 1) == fs[1..]
    ensures FieldsFrom(line, a) == fs
  {
    FieldsSplitAt(line, a, k, fs[0]);
    assert fs == [fs[0]] + fs[1..];
  }

  /** A non-empty, comma-free `f` running from `a` to the end is the only item from `a`. */
  lemma FieldsLast(line: string, a: nat, f: string)
    requires a <= |line| && line[a..] == f && f != [] && NoComma(f)
    ensures FieldsFrom(line, a) == [f]
  {
    forall j | a <= j < |line|
      ensures line[j] != ','
    {
      assert line[j] == line[a..][j - a];
    }
    FieldsStep(line, a, |line|);
  }

  /** A comma-free `f` from `a`, followed by a comma at `k`, is the first item from `a`. */
  lemma FieldsSplitAt(line: string, a: nat, k: nat, f: string)
    requires a <= k < |line| && line[a..k] == f && line[k] == ','
    requires NoComma(f)
    ensures FieldsFrom(line, a) == [f] + FieldsFrom(line, k + 1)
  {
    forall j | a <= j < k
      ensures line[j] != ','
    {
      assert line[j] == line[a..k][j - a];
    }
    FieldsStep(line, a, k);
  }

  /** Splitting comma-joined fields gives them back, when the last field is not empty. */
  lemma FieldsJoin(fs: seq<string>)
    requires Splittable(fs)
    ensures Fields(Join(fs)) == fs
  {
    assert Join(fs)[0..] == Join(fs);
    FieldsJoinFrom(Join(fs), 0, fs);
  }

  /**
   * The inner `getline` loop of `loadData`: each pass reads one item up to the next
   * comma into `item` and pushes it onto `course_data`.
   */
  method SplitLine(line: string) returns (courseData: seq<string>)
    ensures courseData == Fields(line)
  {
    courseData := [];
    var pos := 0;
    // a call to getline succeeds exactly when some character is left to extract
    while pos < |line|
      invariant 0 <= pos <= |line|
      invariant courseData + FieldsFrom(line, pos) == Fields(line)
      decreases |line| - pos
    {
      var item := "";
      var at := pos;
      while at < |line| && line[at] != ','
        invariant pos <= at <= |line|
        invariant item == line[pos..at]
        invariant forall j :: pos <= j < at ==> line[j] != ','
        decreases |line| - at
      {
        assert line[pos..at + 1] == line[pos..at] + [line[at]];
        item := item + [line[at]];
        at := at + 1;
      }
      FieldsStep(line, pos, at);
      courseData := courseData + [item];
      pos := if at < |line| then at + 1 else at;
    }
  }

  // ---------------------------------------------------------------------------
  // Building courses and loadData
  // ---------------------------------------------------------------------------

  /**
   * A line with fewer than two fields is rejected ("Invalid line format"); otherwise
   * its fields are the number, the title and then the prerequisites.
   */
  function BuildCourse(fields: seq<string>): (c: Option<Course>)
    ensures c.Some? <==> |fields| >= 2
  {
    if |fields| < 2 then None
    else Some(Course(fields[0], fields[1], fields[2..]))
  }

  /** A course is rebuilt from its own number, title and prerequisites. */
  lemma BuildCourseOfFields(c: Course)
    ensures BuildCourse([c.number, c.title] + c.prerequisites) == Some(c)
  {
    assert ([c.number, c.title] + c.prerequisites)[2..] == c.prerequisites;
  }

  /** The courses the lines of a file yield, in file order. */
  function CoursesFrom(lines: seq<string>): (r: seq<Course>)
    ensures |r| <= |lines|
  {
    if lines == [] then []
    else
      match BuildCourse(Fields(lines[0]))
      case None => CoursesFrom(lines[1..])
      case Some(c) => [c] + CoursesFrom(lines[1..])
  }

  /** Reading two blocks of lines one after the other gives the courses of both, in order. */
  lemma {:induction false} CoursesFromAppend(xs: seq<string>, ys: seq<string>)
    ensures CoursesFrom(xs + ys) == CoursesFrom(xs) + CoursesFrom(ys)
  {
    if xs == [] {
      assert xs + ys == ys;
    } else {
      var zs := xs + ys;
      assert zs[0] == xs[0];
      assert zs[1..] == xs[1..] + ys;
      CoursesFromAppend(xs[1..], ys);
      match BuildCourse(Fields(xs[0]))
      case None =>
        assert CoursesFrom(zs) == CoursesFrom(xs[1..] + ys);
      case Some(c) =>
        assert CoursesFrom(zs) == [c] + CoursesFrom(xs[1..] + ys);
    }
  }

  /** A line with fewer than two fields is skipped; any other adds exactly its course. */
  lemma CoursesFromLine(lines: seq<string>, line: string)
    ensures BuildCourse(Fields(line)).None? ==> CoursesFrom(lines + [line]) == CoursesFrom(lines)
    ensures BuildCourse(Fields(line)).Some? ==>
      CoursesFrom(lines + [line]) == CoursesFrom(lines) + [BuildCourse(Fields(line)).value]
  {
    CoursesFromAppend(lines, [line]);
    assert [line][1..] == [];
  }

  /** The number of courses is the number of lines with at least two fields. */
  function CountValid(lines: seq<string>): nat
  {
    if lines == [] then 0
    else (if |Fields(lines[0])| >= 2 then 1 else 0) + CountValid(lines[1..])
  }

  lemma {:induction false} CoursesFromCount(lines: seq<string>)
    ensures |CoursesFrom(lines)| == CountValid(lines)
  {
    if lines != [] {
      CoursesFromCount(lines[1..]);
    }
  }

  /**
   * `loadData`: appends the courses of the file's lines to `courses`; when the file
   * cannot be opened ("Unable to open file") the courses are returned unchanged.
   */
  method LoadData(file: Option<seq<string>>, courses: seq<Course>) returns (loaded: seq<Course>)
    ensures file.None? ==> loaded == courses
    ensures file.Some? ==> loaded == courses + CoursesFrom(file.value)
  {
    loaded := courses;
    if file.None? {
      return;
    }
    var lines := file.value;
    var i := 0;
    while i < |lines|
      invariant 0 <= i <= |lines|
      invariant loaded == courses + CoursesFrom(lines[..i])
      decreases |lines| - i
    {
      var line := lines[i];
      var courseData := SplitLine(line);
      CoursesFromLine(lines[..i], line);
      assert lines[..i + 1] == lines[..i] + [line];
      i := i + 1;
      if |courseData| < 2 {
        continue;
      }
      var course := Course(courseData[0], courseData[1], courseData[2..]);
      loaded := loaded + [course];
    }
    assert lines[..i] == lines;
  }

  /** Loading keeps the courses already there, in front and in their order. */
  lemma LoadKeepsEarlier(courses: seq<Course>, lines: seq<string>)
    ensures (courses + CoursesFrom(lines))[..|courses|] == courses
    ensures |courses + CoursesFrom(lines)| == |courses| + CountValid(lines)
  {
    CoursesFromCount(lines);
  }

  // ---------------------------------------------------------------------------
  // printSortedCourses
  // ---------------------------------------------------------------------------

  /** Non-decreasing by `course_number`, compared as `std::string` compares. */
  ghost predicate SortedByNumber(s: seq<Course>)
  {
    forall i, j :: 0 <= i < j < |s| ==> LessEq(s[i].number, s[j].number)
  }

  /** `c` placed before the first course whose number is not less than its own. */
  function Insert(c: Course, s: seq<Course>): (r: seq<Course>)
    ensures |r| == |s| + 1
  {
    if s == [] || !Less(s[0].number, c.number) then [c] + s
    else [s[0]] + Insert(c, s[1..])
  }

  /** The ordered copy that `printSortedCourses` prints. */
  function SortByNumber(s: seq<Course>): (r: seq<Course>)
    ensures |r| == |s|
  {
    if s == [] then [] else Insert(s[0], SortByNumber(s[1..]))
  }

  lemma {:induction false} InsertPermutes(c: Course, s: seq<Course>)
    ensures multiset(Insert(c, s)) == multiset{c} + multiset(s)
  {
    if s != [] && Less(s[0].number, c.number) {
      InsertPermutes(c, s[1..]);
      assert s == [s[0]] + s[1..];
    }
  }

  /** Every course of a sorted sequence is at least `low`, so it stays sorted behind `low`. */
  lemma SortedCons(low: Course, s: seq<Course>)
    requires SortedByNumber(s)
    requires forall x :: x in multiset(s) ==> LessEq(low.number, x.number)
    ensures SortedByNumber([low] + s)
  {
    forall i, j | 0 <= i < j < |[low] + s|
      ensures LessEq(([low] + s)[i].number, ([low] + s)[j].number)
    {
      if i == 0 {
        assert ([low] + s)[j] == s[j - 1];
        assert s[j - 1] in multiset(s);
      } else {
        assert ([low] + s)[i] == s[i - 1] && ([low] + s)[j] == s[j - 1];
      }
    }
  }

  lemma {:induction false} InsertSorted(c: Course, s: seq<Course>)
    requires SortedByNumber(s)
    ensures SortedByNumber(Insert(c, s))
  {
    if s == [] || !Less(s[0].number, c.number) {
      forall x | x in multiset(s)
        ensures LessEq(c.number, x.number)
      {
        var k :| 0 <= k < |s| && s[k] == x;
        if k > 0 {
          LessEqTransitive(c.number, s[0].number, x.number);
        }
      }
      SortedCons(c, s);
    } else {
      var rest := s[1..];
      assert SortedByNumber(rest) by {
        forall i, j | 0 <= i < j < |rest|
          ensures LessEq(rest[i].number, rest[j].number)
        {
          assert rest[i] == s[i + 1] && rest[j] == s[j + 1];
        }
      }
      InsertSorted(c, rest);
      InsertPermutes(c, rest);
      forall x | x in multiset(Insert(c, rest))
        ensures LessEq(s[0].number, x.number)
      {
        if x == c {
          LessAsymmetric(s[0].number, c.number);
        } else {
          assert x in multiset(rest);
          var k :| 0 <= k < |rest| && rest[k] == x;
          assert s[k + 1] == x;
        }
      }
      SortedCons(s[0], Insert(c, rest));
    }
  }

  /** `printSortedCourses` lists every course once, in non-decreasing number order. */
  lemma {:induction false} SortByNumberCorrect(s: seq<Course>)
    ensures SortedByNumber(SortByNumber(s))
    ensures multiset(SortByNumber(s)) == multiset(s)
  {
    if s != [] {
      SortByNumberCorrect(s[1..]);
      InsertSorted(s[0], SortByNumber(s[1..]));
      InsertPermutes(s[0], SortByNumber(s[1..]));
      assert s == [s[0]] + s[1..];
    }
  }

  /** Courses whose numbers differ unless the courses are the same. */
  ghost predicate DistinctNumbers(m: multiset<Course>)
  {
    forall x, y :: x in m && y in m && x.number == y.number ==> x == y
  }

  /**
   * When no two different courses share a number, there is only one sorted order of
   * them, so any sorted permutation (`std::sort`'s included) is the one modelled here.
   */
  lemma {:induction false} SortedPermutationUnique(a: seq<Course>, b: seq<Course>)
    requires SortedByNumber(a) && SortedByNumber(b)
    requires multiset(a) == multiset(b)
    requires DistinctNumbers(multiset(a))
    ensures a == b
    decreases |a|
  {
    if a != [] {
      SameHead(a, b);
      SameTails(a, b);
      SortedPermutationUnique(a[1..], b[1..]);
      assert a == [a[0]] + a[1..] && b == [b[0]] + b[1..];
    }
  }

  /** Two sorted permutations of courses with distinct numbers start with the same course. */
  lemma SameHead(a: seq<Course>, b: seq<Course>)
    requires a != [] && SortedByNumber(a) && SortedByNumber(b)
    requires multiset(a) == multiset(b)
    requires DistinctNumbers(multiset(a))
    ensures b != [] && a[0] == b[0]
  {
    assert a[0] in multiset(b);
    HeadIsLeast(b, a[0]);
    HeadIsLeast(a, b[0]);
    if a[0].number != b[0].number {
      LessConnected(a[0].number, b[0].number);
    }
  }

  /** With equal heads, the tails are again sorted permutations with distinct numbers. */
  lemma SameTails(a: seq<Course>, b: seq<Course>)
    requires a != [] && b != [] && a[0] == b[0]
    requires SortedByNumber(a) && SortedByNumber(b)
    requires multiset(a) == multiset(b)
    requires DistinctNumbers(multiset(a))
    ensures SortedByNumber(a[1..]) && SortedByNumber(b[1..])
    ensures multiset(a[1..]) == multiset(b[1..])
    ensures DistinctNumbers(multiset(a[1..]))
  {
    assert a == [a[0]] + a[1..] && b == [b[0]] + b[1..];
    assert multiset(a[1..]) <= multiset(a);
    SortedTail(a);
    SortedTail(b);
  }

  /** The first course of a sorted sequence has the least number. */
  lemma HeadIsLeast(s: seq<Course>, x: Course)
    requires SortedByNumber(s) && x in multiset(s)
    ensures LessEq(s[0].number, x.number)
  {
    var i :| 0 <= i < |s| && s[i] == x;
    if i == 0 {
      LessIrreflexive(x.number);
    }
  }

  lemma SortedTail(s: seq<Course>)
    requires s != [] && SortedByNumber(s)
    ensures SortedByNumber(s[1..])
  {
    forall p, q | 0 <= p < q < |s| - 1
      ensures LessEq(s[1..][p].number, s[1..][q].number)
    {
      assert s[1..][p] == s[p + 1] && s[1..][q] == s[q + 1];
    }
  }

  // ---------------------------------------------------------------------------
  // printCourseDetails
  // ---------------------------------------------------------------------------

  /** The course `printCourseDetails` prints: the first whose number matches in upper case. */
  function FindCourse(number: string, courses: seq<Course>): (r: Option<Course>)
    ensures r.None? <==> forall i :: 0 <= i < |courses| ==> ToUpper(courses[i].number) != ToUpper(number)
    ensures r.Some? ==> r.value in courses && ToUpper(r.value.number) == ToUpper(number)
  {
    if courses == [] then None
    else if ToUpper(courses[0].number) == ToUpper(number) then Some(courses[0])
    else FindCourse(number, courses[1..])
  }

  /** A matching course with no match before it is the one found. */
  lemma {:induction false} FindCourseFirst(number: string, courses: seq<Course>, i: nat)
    requires i < |courses| && ToUpper(courses[i].number) == ToUpper(number)
    requires forall j :: 0 <= j < i ==> ToUpper(courses[j].number) != ToUpper(number)
    ensures FindCourse(number, courses) == Some(courses[i])
  {
    if i > 0 {
      assert courses[1..][i - 1] == courses[i];
      FindCourseFirst(number, courses[1..], i - 1);
    }
  }

  /** The lookup ignores the case of the number asked for. */
  lemma {:induction false} FindCourseIgnoresCase(number: string, courses: seq<Course>)
    ensures FindCourse(ToUpper(number), courses) == FindCourse(number, courses)
  {
    ToUpperIdempotent(number);
    if courses != [] {
      FindCourseIgnoresCase(number, courses[1..]);
    }
  }
}
