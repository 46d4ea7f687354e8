/** The course catalogue of courses/models.py: departments, courses with
    their ordering and name formatters, and instructors. `slugify` is a
    library call and is taken as a parameter. */
module Courses {
  import opened Results
  import opened Text

  datatype Department = Department(id: nat, longName: string, shortName: string, abbreviation: string, slug: string)

  /** `Department.save`: the slug is derived from the short name and the
      registrar abbreviation is upper-cased and trimmed; nothing else changes. */
  function SaveDepartment(d: Department, slugify: string -> string): (r: Department)
    ensures r.slug == slugify(d.shortName)
    ensures NoLower(r.abbreviation)
    ensures exists i, j :: StripBounds(d.abbreviation, IsSpace, i, j) && r.abbreviation == Upper(d.abbreviation[i..j])
    ensures r.id == d.id && r.longName == d.longName && r.shortName == d.shortName
  {
    var abbreviation := UpperStrip(d.abbreviation);
    Department(d.id, d.longName, d.shortName, abbreviation, slugify(d.shortName))
  }

  /** Saving a department twice is the same as saving it once. */
  lemma SaveDepartmentIdempotent(d: Department, slugify: string -> string)
    ensures SaveDepartment(SaveDepartment(d, slugify), slugify) == SaveDepartment(d, slugify)
  {
    UpperStripIdempotent(d.abbreviation);
  }

  /** The slug depends on the short name alone. */
  lemma SlugFromShortNameOnly(d: Department, e: Department, slugify: string -> string)
    requires d.shortName == e.shortName
    ensures SaveDepartment(d, slugify).slug == SaveDepartment(e, slugify).slug
  {
  }

  datatype Course = Course(department: Department, number: string, title: string)

  /** `Course.save`: the number is stored upper-cased and trimmed. */
  function SaveCourse(c: Course): (r: Course)
    ensures NoLower(r.number)
    ensures exists i, j :: StripBounds(c.number, IsSpace, i, j) && r.number == Upper(c.number[i..j])
    ensures r.department == c.department && r.title == c.title
  {
    var number := UpperStrip(c.number);
    Course(c.department, number, c.title)
  }

  lemma SaveCourseIdempotent(c: Course)
    ensures SaveCourse(SaveCourse(c)) == SaveCourse(c)
  {
    UpperStripIdempotent(c.number);
  }

  // ---------------------------------------------------------------------------
  // Course numbers such as "C61A" or "H195-1"

  /** `number.split('-', 1)`: the part before the first hyphen and, if there
      is a hyphen, the part after it. */
  function SplitHyphen(n: string): (r: (string, Option<string>))
    ensures r.1.None? ==> r.0 == n && '-' !in n
    ensures r.1.Some? ==> n == r.0 + "-" + r.1.value && '-' !in r.0
    decreases |n|
  {
    if n == [] then ("", None)
    else if n[0] == '-' then ("", Some(n[1..]))
    else
      var (b, s) := SplitHyphen(n[1..]);
      assert n == [n[0]] + n[1..];
      ([n[0]] + b, s)
  }

  /** A number on which the comparison's calls to `int()` succeed: the text
      after the hyphen, if any, and the text before it with the surrounding
      letters stripped, are both decimal digits. */
  predicate WellFormedNumber(n: string)
  {
    var (base, suffix) := SplitHyphen(n);
    && (suffix.Some? ==> ParseNat(suffix.value).Some?)
    && ParseNat(StripBy(base, IsLetter)).Some?
  }

  /** A number the comparison can parse contains a digit. */
  lemma WellFormedHasDigit(n: string)
    requires WellFormedNumber(n)
    ensures exists k :: 0 <= k < |n| && IsDigit(n[k])
  {
    var base := SplitHyphen(n).0;
    var core := StripBy(base, IsLetter);
    var i, j :| StripBounds(base, IsLetter, i, j) && core == base[i..j];
    DigitInPrefix(n, base, core, i, j);
  }

  /** A digit of the letter-stripped part before the hyphen is a digit of the number. */
  lemma DigitInPrefix(n: string, base: string, core: string, i: int, j: int)
    requires |base| <= |n| && base == n[..|base|]
    requires StripBounds(base, IsLetter, i, j) && core == base[i..j]
    requires |core| > 0 && AllDigits(core)
    ensures exists k :: 0 <= k < |n| && IsDigit(n[k])
  {
    assert IsDigit(core[0]);
    assert n[i] == core[0];
  }

  /** The values the comparison computes from a number: the integer part,
      the number without its letter prefix, the number before the hyphen,
      and the value after the hyphen (0 without one). */
  datatype NumberKey = NumberKey(intPart: nat, post: string, base: string, hyph: nat)

  /** The key `__lt__` computes from a number; `KeyFields` states what its
      integer part and postfix are. */
  function Key(n: string): (k: NumberKey)
    requires WellFormedNumber(n)
    ensures k.base == SplitHyphen(n).0
    ensures SplitHyphen(n).1.Some? ==> ParseNat(SplitHyphen(n).1.value) == Some(k.hyph)
    ensures SplitHyphen(n).1.None? ==> k.hyph == 0
  {
    var base := SplitHyphen(n).0;
    NumberKey(IntPart(n), LStripBy(base, IsLetter), base, HyphenValue(n))
  }

  /** The integer part of the key is the value of the text before the
      hyphen with the letters at both ends stripped, and the postfix is that
      text with only its leading letters dropped. */
  lemma KeyFields(n: string)
    requires WellFormedNumber(n)
    ensures exists i, j :: StripBounds(Key(n).base, IsLetter, i, j) && ParseNat(Key(n).base[i..j]) == Some(Key(n).intPart)
    ensures |Key(n).post| <= |Key(n).base| && Key(n).post == Key(n).base[|Key(n).base| - |Key(n).post|..]
    ensures forall m :: 0 <= m < |Key(n).base| - |Key(n).post| ==> IsLetter(Key(n).base[m])
    ensures Key(n).post != [] ==> !IsLetter(Key(n).post[0])
  {
    var base := SplitHyphen(n).0;
    var post := LStripBy(base, IsLetter);
    assert Key(n) == NumberKey(IntPart(n), post, base, HyphenValue(n));
  }

  /** `int(our_number.strip(string.letters))` on the part before the hyphen. */
  function IntPart(n: string): (v: nat)
    requires WellFormedNumber(n)
    ensures exists i, j :: StripBounds(SplitHyphen(n).0, IsLetter, i, j) && ParseNat(SplitHyphen(n).0[i..j]) == Some(v)
  {
    WellFormedParts(n);
    var core := StripBy(SplitHyphen(n).0, IsLetter);
    StrippedValue(SplitHyphen(n).0, core, ParseNat(core).value);
    ParseNat(core).value
  }

  /** The value after the hyphen, 0 without one. */
  function HyphenValue(n: string): (v: nat)
    requires WellFormedNumber(n)
    ensures SplitHyphen(n).1.Some? ==> ParseNat(SplitHyphen(n).1.value) == Some(v)
    ensures SplitHyphen(n).1.None? ==> v == 0
  {
    WellFormedParts(n);
    var suffix := SplitHyphen(n).1;
    if suffix.Some? then ParseNat(suffix.value).value else 0
  }

  /** The two calls to `int()` in the comparison succeed on a well-formed number. */
  lemma WellFormedParts(n: string)
    requires WellFormedNumber(n)
    ensures ParseNat(StripBy(SplitHyphen(n).0, IsLetter)).Some?
    ensures SplitHyphen(n).1.Some? ==> ParseNat(SplitHyphen(n).1.value).Some?
  {
    var (base, suffix) := SplitHyphen(n);
    assert ParseNat(StripBy(base, IsLetter)).Some?;
  }

  /** The value parsed from the letter-stripped text is the value of some strip of it. */
  lemma StrippedValue(base: string, core: string, v: nat)
    requires core == StripBy(base, IsLetter) && ParseNat(core) == Some(v)
    ensures exists i, j :: StripBounds(base, IsLetter, i, j) && ParseNat(base[i..j]) == Some(v)
  {
    var i, j :| StripBounds(base, IsLetter, i, j) && core == base[i..j];
    assert ParseNat(base[i..j]) == Some(v);
  }

  /** The number part of `__lt__`, once the departments compare equal. */
  predicate NumberLess(k1: NumberKey, k2: NumberKey)
    ensures NumberLess(k1, k2) <==>
      || k1.intPart < k2.intPart
      || (k1.intPart == k2.intPart && LexLess(k1.post, k2.post))
      || (k1.intPart == k2.intPart && k1.post == k2.post && LexLess(k1.base, k2.base))
      || (k1.intPart == k2.intPart && k1.post == k2.post && k1.base == k2.base && k1.hyph < k2.hyph)
  {
    LexFacts(k1.post, k2.post, k2.post);
    LexFacts(k1.base, k2.base, k2.base);
    if k1.intPart < k2.intPart then true
    else if k1.intPart > k2.intPart then false
    else if LexLess(k1.post, k2.post) then true
    else if LexLess(k2.post, k1.post) then false
    else if LexLess(k1.base, k2.base) then true
    else if LexLess(k2.base, k1.base) then false
    else k1.hyph < k2.hyph
  }

  /** The three string orders the number comparison relies on, gathered. */
  lemma LexFacts(x: string, y: string, z: string)
    ensures !LexLess(x, x)
    ensures LexLess(x, y) ==> !LexLess(y, x)
    ensures x == y || LexLess(x, y) || LexLess(y, x)
    ensures LexLess(x, y) && LexLess(y, z) ==> LexLess(x, z)
  {
    LexLessIrreflexive(x);
    LexLessAsymmetric(x, y);
    LexLessTotal(x, y);
    if LexLess(x, y) && LexLess(y, z) {
      LexLessTransitive(x, y, z);
    }
  }

  lemma NumberLessTrichotomy(k1: NumberKey, k2: NumberKey)
    ensures !NumberLess(k1, k1)
    ensures NumberLess(k1, k2) ==> !NumberLess(k2, k1)
    ensures k1 == k2 || NumberLess(k1, k2) || NumberLess(k2, k1)
  {
    LexFacts(k1.post, k2.post, k2.post);
    LexFacts(k1.base, k2.base, k2.base);
    LexFacts(k2.post, k1.post, k1.post);
    LexFacts(k2.base, k1.base, k1.base);
  }

  lemma NumberLessTransitive(k1: NumberKey, k2: NumberKey, k3: NumberKey)
    requires NumberLess(k1, k2) && NumberLess(k2, k3)
    ensures NumberLess(k1, k3)
  {
    LexFacts(k1.post, k2.post, k3.post);
    LexFacts(k3.post, k1.post, k2.post);
    LexFacts(k2.post, k3.post, k1.post);
    LexFacts(k1.base, k2.base, k3.base);
    LexFacts(k3.base, k1.base, k2.base);
    LexFacts(k2.base, k3.base, k1.base);
  }

  // ---------------------------------------------------------------------------
  // Ordering courses

  function Abbr(c: Course): string { c.department.abbreviation }

  /** When `__lt__` can run without `int()` raising: if the departments'
      abbreviations are equal, both numbers must be well formed. */
  predicate Comparable(a: Course, b: Course)
  {
    Abbr(a) == Abbr(b) ==> WellFormedNumber(a.number) && WellFormedNumber(b.number)
  }

  /** `Course.__lt__` between two courses: by department abbreviation, then
      integer part, then number without letter prefix, then the whole
      number before the hyphen, then the value after the hyphen. */
  predicate Less(a: Course, b: Course)
    requires Comparable(a, b)
    ensures Less(a, b) <==>
      || LexLess(Abbr(a), Abbr(b))
      || (Abbr(a) == Abbr(b) && NumberLess(Key(a.number), Key(b.number)))
  {
    LexFacts(Abbr(a), Abbr(b), Abbr(b));
    if LexLess(Abbr(a), Abbr(b)) then true
    else if LexLess(Abbr(b), Abbr(a)) then false
    else
      LexLessTotal(Abbr(a), Abbr(b));
      NumberLess(Key(a.number), Key(b.number))
  }

  /** Two courses `__lt__` cannot tell apart. */
  predicate SameRank(a: Course, b: Course)
  {
    && Abbr(a) == Abbr(b)
    && WellFormedNumber(a.number) && WellFormedNumber(b.number)
    && Key(a.number) == Key(b.number)
  }

  lemma LessIrreflexive(a: Course)
    requires WellFormedNumber(a.number)
    ensures !Less(a, a)
  {
    LexLessIrreflexive(Abbr(a));
    NumberLessTrichotomy(Key(a.number), Key(a.number));
  }

  /** Exactly one of `a < b`, `b < a` and "same rank" holds. */
  lemma LessTrichotomy(a: Course, b: Course)
    requires Comparable(a, b)
    ensures Less(a, b) || Less(b, a) || SameRank(a, b)
    ensures Less(a, b) ==> !Less(b, a) && !SameRank(a, b)
    ensures SameRank(a, b) ==> !Less(a, b) && !Less(b, a)
  {
    LexFacts(Abbr(a), Abbr(b), Abbr(b));
    if Abbr(a) == Abbr(b) {
      NumberLessTrichotomy(Key(a.number), Key(b.number));
    }
  }

  /** `__lt__` is transitive wherever it is defined on each pair. */
  lemma LessTransitive(a: Course, b: Course, c: Course)
    requires Comparable(a, b) && Comparable(b, c) && Comparable(a, c)
    requires Less(a, b) && Less(b, c)
    ensures Less(a, c)
  {
    LexFacts(Abbr(a), Abbr(b), Abbr(c));
    LexFacts(Abbr(c), Abbr(a), Abbr(b));
    LexFacts(Abbr(b), Abbr(c), Abbr(a));
    if Abbr(a) == Abbr(b) && Abbr(b) == Abbr(c) {
      NumberLessTransitive(Key(a.number), Key(b.number), Key(c.number));
    }
  }

  /** The right operand of a comparison, which need not be a course. */
  datatype Operand = CourseOperand(course: Course) | OtherOperand

  predicate ComparableWith(a: Course, b: Operand)
  {
    b.CourseOperand? ==> Comparable(a, b.course)
  }

  /** `__lt__`: false against anything that is not a course. */
  predicate Lt(a: Course, b: Operand)
    requires ComparableWith(a, b)
    ensures Lt(a, b) <==> b.CourseOperand? && !SameRank(a, b.course) && !Less(b.course, a)
  {
    if b.CourseOperand? then LessTrichotomy(a, b.course); Less(a, b.course) else false
  }

  /** `__le__`, computed as "not `b < a`": less than or of the same rank. */
  predicate Le(a: Course, b: Operand)
    requires ComparableWith(a, b)
    ensures Le(a, b) <==> b.CourseOperand? && (Less(a, b.course) || SameRank(a, b.course))
  {
    if b.CourseOperand? then LessTrichotomy(a, b.course); !Less(b.course, a) else false
  }

  /** `__gt__`, computed as `b < a`: neither less than nor of the same rank. */
  predicate Gt(a: Course, b: Operand)
    requires ComparableWith(a, b)
    ensures Gt(a, b) <==> b.CourseOperand? && !Less(a, b.course) && !SameRank(a, b.course)
  {
    if b.CourseOperand? then LessTrichotomy(a, b.course); Less(b.course, a) else false
  }

  /** `__ge__`, computed as "not `a < b`": greater than or of the same rank. */
  predicate Ge(a: Course, b: Operand)
    requires ComparableWith(a, b)
    ensures Ge(a, b) <==> b.CourseOperand? && (Less(b.course, a) || SameRank(a, b.course))
  {
    if b.CourseOperand? then LessTrichotomy(a, b.course); !Less(a, b.course) else false
  }

  /** `__eq__`: same number and same department id; false for a non-course. */
  predicate Eq(a: Course, b: Operand)
    ensures Eq(a, b) ==> b.CourseOperand? && a.number == b.course.number
  {
    b.CourseOperand? && a.number == b.course.number && a.department.id == b.course.department.id
  }

  /** `__ne__`: the negation of `__eq__`, so true for a non-course. */
  predicate Ne(a: Course, b: Operand)
    ensures b.OtherOperand? ==> Ne(a, b)
    ensures !Ne(a, b) ==> a.number == b.course.number
  {
    !Eq(a, b)
  }

  /** In a catalogue where a department id names one department, equal
      courses are neither less nor greater than each other. */
  lemma EqualCoursesAreUnordered(a: Course, b: Course)
    requires a.department.id == b.department.id ==> a.department == b.department
    requires WellFormedNumber(a.number) && WellFormedNumber(b.number)
    requires Eq(a, CourseOperand(b))
    ensures !Lt(a, CourseOperand(b)) && !Gt(a, CourseOperand(b))
    ensures Le(a, CourseOperand(b)) && Ge(a, CourseOperand(b))
  {
    assert SameRank(a, b);
  }

  /** `<=` and `>=` are total between comparable courses. */
  lemma LeTotal(a: Course, b: Course)
    requires Comparable(a, b)
    ensures Le(a, CourseOperand(b)) || Le(b, CourseOperand(a))
  {
    LessTrichotomy(a, b);
  }

  // ---------------------------------------------------------------------------
  // Names

  /** `abbreviation`: department short name, a space, the number. */
  function Abbreviation(c: Course): (r: string)
    ensures |r| == |c.department.shortName| + 1 + |c.number|
    ensures r[..|c.department.shortName|] == c.department.shortName
    ensures r[|c.department.shortName|] == ' '
    ensures r[|c.department.shortName| + 1..] == c.number
  {
    c.department.shortName + " " + c.number
  }

  /** With space-free short names, the abbreviation identifies short name and number. */
  lemma AbbreviationInjective(a: Course, b: Course)
    requires ' ' !in a.department.shortName && ' ' !in b.department.shortName
    requires Abbreviation(a) == Abbreviation(b)
    ensures a.department.shortName == b.department.shortName && a.number == b.number
  {
    JoinInjectiveLeft(a.department.shortName, a.number, b.department.shortName, b.number, ' ');
  }

  /** `get_display_name`: department long name, a space, the number. */
  function DisplayName(c: Course): (r: string)
    ensures |r| == |c.department.longName| + 1 + |c.number|
    ensures r[..|c.department.longName|] == c.department.longName
    ensures r[|c.department.longName|] == ' '
    ensures r[|c.department.longName| + 1..] == c.number
  {
    c.department.longName + " " + c.number
  }

  /** Long names may contain spaces, but with space-free numbers the display
      name still identifies long name and number. */
  lemma DisplayNameInjective(a: Course, b: Course)
    requires ' ' !in a.number && ' ' !in b.number
    requires DisplayName(a) == DisplayName(b)
    ensures a.department.longName == b.department.longName && a.number == b.number
  {
    JoinInjectiveRight(a.department.longName, a.number, b.department.longName, b.number, ' ');
  }

  /** `get_url_name`: department slug directly followed by the number. */
  function CourseUrlName(c: Course): (r: string)
    ensures |r| == |c.department.slug| + |c.number|
    ensures r[..|c.department.slug|] == c.department.slug
    ensures r[|c.department.slug|..] == c.number
  {
    c.department.slug + c.number
  }

  /** Within one department the URL name identifies the course number. */
  lemma CourseUrlNameInjectiveInDepartment(a: Course, b: Course)
    requires a.department.slug == b.department.slug
    requires CourseUrlName(a) == CourseUrlName(b)
    ensures a.number == b.number
  {
    assert a.number == CourseUrlName(a)[|a.department.slug|..];
  }

  datatype Instructor = Instructor(firstName: string, lastName: string, middleInitial: string, department: nat)

  /** `full_name`: first name, a space, last name. */
  function FullName(i: Instructor): (r: string)
    ensures |r| == |i.firstName| + 1 + |i.lastName|
    ensures r[..|i.firstName|] == i.firstName
    ensures r[|i.firstName|] == ' '
    ensures r[|i.firstName| + 1..] == i.lastName
  {
    i.firstName + " " + i.lastName
  }

  /** With space-free first names, the full name identifies both names. */
  lemma FullNameInjective(a: Instructor, b: Instructor)
    requires ' ' !in a.firstName && ' ' !in b.firstName
    requires FullName(a) == FullName(b)
    ensures a.firstName == b.firstName && a.lastName == b.lastName
  {
    JoinInjectiveLeft(a.firstName, a.lastName, b.firstName, b.lastName, ' ');
  }

  /** `last_name_first`: "last, first", or only the last name when there is
      no first name. */
  function LastNameFirst(i: Instructor): (r: string)
    ensures i.firstName == [] ==> r == i.lastName
    ensures i.firstName != [] ==>
      && |r| == |i.lastName| + 2 + |i.firstName|
      && r[..|i.lastName|] == i.lastName
      && r[|i.lastName|..|i.lastName| + 2] == ", "
      && r[|i.lastName| + 2..] == i.firstName
  {
    if i.firstName != [] then i.lastName + ", " + i.firstName else i.lastName
  }

  /** With comma-free last names and a first name present, "last, first"
      identifies both names. */
  lemma LastNameFirstInjective(a: Instructor, b: Instructor)
    requires ',' !in a.lastName && ',' !in b.lastName
    requires a.firstName != [] && b.firstName != []
    requires LastNameFirst(a) == LastNameFirst(b)
    ensures a.firstName == b.firstName && a.lastName == b.lastName
  {
    CommaSpaceJoin(a.lastName, a.firstName);
    CommaSpaceJoin(b.lastName, b.firstName);
    JoinInjectiveLeft(a.lastName, " " + a.firstName, b.lastName, " " + b.firstName, ',');
  }

  /** "last, first" is "last" and " first" joined by a comma. */
  lemma CommaSpaceJoin(last: string, first: string)
    ensures last + ", " + first == last + [','] + (" " + first)
    ensures (" " + first)[1..] == first
  {
    assert (last + ", " + first) == last + [','] + (" " + first);
  }
}
