/** The round-robin enrollments of apps/core/scripts/seed-perf-volume.ts. */
module RoundRobin {
  import opened Division
  import opened Sequences

  datatype Row = Row(course: nat, student: string)

  /** How many students each course takes. */
  function Width(perCourse: int, students: nat): nat {
    if perCourse <= 0 then 0 else if perCourse < students then perCourse else students
  }

  /** The row of the student at a position, counted on from course to course. */
  function RowAt(c: nat, position: int, students: seq<string>): Row
    requires students != []
  {
    Row(c, students[position % |students|])
  }

  /** The first `e` rows of a course that begins at the position `start`. */
  function CourseRows(c: nat, start: int, e: nat, students: seq<string>): (rows: seq<Row>)
    requires e > 0 ==> students != []
    ensures |rows| == e
  {
    if e == 0 then [] else CourseRows(c, start, e - 1, students) + [RowAt(c, start + e - 1, students)]
  }

  function AllRows(courses: nat, perCourse: int, students: seq<string>): seq<Row> {
    if courses == 0 then []
    else AllRows(courses - 1, perCourse, students)
         + CourseRows(courses - 1, (courses - 1) * perCourse, Width(perCourse, |students|), students)
  }

  /** The enrollment loops of the seeding script; `total` counts as `nEnroll` does. */
  method Enroll(courses: nat, perCourse: int, studentIds: seq<string>) returns (rows: seq<Row>, total: nat)
    ensures rows == AllRows(courses, perCourse, studentIds) && total == |rows|
  {
    rows, total := [], 0;
    for c := 0 to courses
      invariant rows == AllRows(c, perCourse, studentIds) && total == |rows|
    {
      var enrollRows := [];
      var e := 0;
      while e < perCourse && e < |studentIds|
        invariant 0 <= e <= Width(perCourse, |studentIds|)
        invariant enrollRows == CourseRows(c, c * perCourse, e, studentIds)
        decreases |studentIds| - e
      {
        Nonnegative(c, perCourse);
        var sid := studentIds[(c * perCourse + e) % |studentIds|];
        enrollRows := enrollRows + [Row(c, sid)];
        e := e + 1;
      }
      if |enrollRows| > 0 {
        rows := rows + enrollRows;
        total := total + |enrollRows|;
      }
    }
  }

  lemma Nonnegative(a: nat, b: int)
    requires b >= 0
    ensures a * b >= 0
  {
  }

  function Count(rows: seq<Row>, student: string): nat {
    if rows == [] then 0
    else Count(rows[..|rows| - 1], student) + if rows[|rows| - 1].student == student then 1 else 0
  }

  lemma {:induction false} CountConcat(a: seq<Row>, b: seq<Row>, student: string)
    ensures Count(a + b, student) == Count(a, student) + Count(b, student)
    decreases |b|
  {
    if b == [] { assert a + b == a; }
    else {
      assert (a + b)[..|a + b| - 1] == a + b[..|b| - 1];
      CountConcat(a, b[..|b| - 1], student);
    }
  }

  // Positions modulo the number of students.

  /** The positions below `m` that fall on student `a`. */
  function Hits(a: nat, m: nat, n: nat): nat
    requires a < n
  {
    if m == 0 then 0 else Hits(a, m - 1, n) + if (m - 1) % n == a then 1 else 0
  }

  lemma NextPosition(m: nat, n: nat)
    requires n > 0
    ensures m % n + 1 < n ==> (m + 1) / n == m / n && (m + 1) % n == m % n + 1
    ensures m % n + 1 == n ==> (m + 1) / n == m / n + 1 && (m + 1) % n == 0
  {
    var (q, r) := (m / n, m % n);
    assert m == n * q + r;
    if r + 1 < n { DivMod(m + 1, n, q, r + 1); }
    else { assert n * (q + 1) == n * q + n; DivMod(m + 1, n, q + 1, 0); }
  }

  lemma {:induction false} HitsExactly(a: nat, m: nat, n: nat)
    requires a < n
    ensures Hits(a, m, n) == m / n + if a < m % n then 1 else 0
  {
    if m == 0 {
      DivMod(0, n, 0, 0);
    } else {
      HitsExactly(a, m - 1, n);
      NextPosition(m - 1, n);
    }
  }

  /** Any `n` positions in a row fall on each student once. */
  lemma OncePerRound(a: nat, m: nat, n: nat)
    requires a < n
    ensures Hits(a, m + n, n) == Hits(a, m, n) + 1
  {
    hide Hits;
    HitsExactly(a, m, n);
    HitsExactly(a, m + n, n);
    OneRoundOn(m, n);
  }

  lemma OneRoundOn(m: nat, n: nat)
    requires n > 0
    ensures (m + n) / n == m / n + 1 && (m + n) % n == m % n
  {
    var (q, r) := (m / n, m % n);
    assert m == n * q + r;
    assert n * (q + 1) == n * q + n;
    DivMod(m + n, n, q + 1, r);
  }

  lemma {:induction false} CourseCounts(c: nat, start: nat, e: nat, students: seq<string>, a: nat)
    requires a < |students| && Distinct(students)
    ensures Count(CourseRows(c, start, e, students), students[a])
         == Hits(a, start + e, |students|) - Hits(a, start, |students|)
  {
    if e > 0 {
      CourseCounts(c, start, e - 1, students, a);
      var p := (start + e - 1) % |students|;
      assert students[p] == students[a] <==> p == a;
      assert CourseRows(c, start, e, students)[..e - 1] == CourseRows(c, start, e - 1, students);
    }
  }

  lemma {:induction false} CourseRow(c: nat, start: int, e: nat, students: seq<string>, i: nat)
    requires students != [] && i < e
    ensures CourseRows(c, start, e, students)[i] == RowAt(c, start + i, students)
  {
    if i < e - 1 { CourseRow(c, start, e - 1, students, i); }
  }

  /** How often a student is enrolled in all: when no course is larger than the class,
      as often as the running position has passed over the student; otherwise once
      in every course. */
  lemma {:induction false} CountExactly(courses: nat, perCourse: int, students: seq<string>, a: nat)
    requires a < |students| && Distinct(students) && perCourse >= 0
    ensures courses * perCourse >= 0
    ensures Count(AllRows(courses, perCourse, students), students[a])
         == if perCourse > |students| then courses
            else var positions := courses * perCourse;
                 positions / |students| + if a < positions % |students| then 1 else 0
  {
    Nonnegative(courses, perCourse);
    HitsExactly(a, courses * perCourse, |students|);
    PositionsCounted(courses, perCourse, students, a);
  }

  lemma NothingCounted(perCourse: int, students: seq<string>, a: nat)
    requires a < |students|
    ensures Count(AllRows(0, perCourse, students), students[a]) == 0 && Hits(a, 0, |students|) == 0
  {
  }

  lemma {:induction false} PositionsCounted(courses: nat, perCourse: int, students: seq<string>, a: nat)
    requires a < |students| && Distinct(students) && perCourse >= 0
    ensures courses * perCourse >= 0
    ensures Count(AllRows(courses, perCourse, students), students[a])
         == if perCourse > |students| then courses else Hits(a, courses * perCourse, |students|)
  {
    hide Count, CourseRows, Hits;
    Nonnegative(courses, perCourse);
    if courses == 0 {
      NothingCounted(perCourse, students, a);
    } else {
      var (c, w) := (courses - 1, Width(perCourse, |students|));
      Nonnegative(c, perCourse);
      NextStart(courses, perCourse);
      PositionsCounted(c, perCourse, students, a);
      CourseAdds(c, c * perCourse, w, AllRows(c, perCourse, students), students, a);
      if perCourse > |students| { OncePerRound(a, c * perCourse, |students|); }
    }
  }

  lemma CourseAdds(c: nat, start: nat, w: nat, before: seq<Row>, students: seq<string>, a: nat)
    requires a < |students| && Distinct(students)
    ensures Count(before + CourseRows(c, start, w, students), students[a])
         == Count(before, students[a]) + Hits(a, start + w, |students|) - Hits(a, start, |students|)
  {
    hide Count, CourseRows, Hits;
    CourseCounts(c, start, w, students, a);
    CountConcat(before, CourseRows(c, start, w, students), students[a]);
  }

  lemma NextStart(courses: nat, perCourse: int)
    requires courses > 0
    ensures courses * perCourse == (courses - 1) * perCourse + perCourse
  {
  }

  /** Any two students are enrolled equally often, give or take one. */
  lemma EnrollmentIsFair(courses: nat, perCourse: int, students: seq<string>, a: nat, b: nat)
    requires a < |students| && b < |students| && Distinct(students)
    ensures -1 <= Count(AllRows(courses, perCourse, students), students[a])
                  - Count(AllRows(courses, perCourse, students), students[b]) <= 1
  {
    if perCourse >= 0 {
      CountExactly(courses, perCourse, students, a);
      CountExactly(courses, perCourse, students, b);
    } else {
      NobodyEnrolled(courses, perCourse, students);
    }
  }

  lemma {:induction false} NobodyEnrolled(courses: nat, perCourse: int, students: seq<string>)
    requires perCourse <= 0
    ensures AllRows(courses, perCourse, students) == []
  {
    if courses > 0 { NobodyEnrolled(courses - 1, perCourse, students); }
  }

  lemma WindowDistinct(start: nat, e: nat, f: nat, n: nat)
    requires e < f < n
    ensures (start + e) % n != (start + f) % n
  {
    var (p, q) := ((start + e) / n, (start + f) / n);
    assert start + e == n * p + (start + e) % n && start + f == n * q + (start + f) % n;
    if p < q { OneMore(n, p, q); }
    if q < p { OneMore(n, q, p); }
  }

  /** No student is enrolled in a course twice. */
  lemma {:induction false} NeverTwice(courses: nat, perCourse: int, students: seq<string>, i: nat, j: nat)
    requires Distinct(students) && i < j < |AllRows(courses, perCourse, students)|
    ensures AllRows(courses, perCourse, students)[i] != AllRows(courses, perCourse, students)[j]
  {
    var (c, w) := (courses - 1, Width(perCourse, |students|));
    var before := AllRows(c, perCourse, students);
    if j < |before| {
      NeverTwice(c, perCourse, students, i, j);
    } else {
      var (start, f) := (c * perCourse, j - |before|);
      Nonnegative(c, perCourse);
      CourseRow(c, start, w, students, f);
      if i < |before| {
        CoursesSoFar(c, perCourse, students, i);
      } else {
        CourseRow(c, start, w, students, i - |before|);
        WindowDistinct(start, i - |before|, f, |students|);
      }
    }
  }

  lemma {:induction false} CoursesSoFar(courses: nat, perCourse: int, students: seq<string>, i: nat)
    requires i < |AllRows(courses, perCourse, students)|
    ensures AllRows(courses, perCourse, students)[i].course < courses
  {
    var (c, w) := (courses - 1, Width(perCourse, |students|));
    if i < |AllRows(c, perCourse, students)| { CoursesSoFar(c, perCourse, students, i); }
    else { CourseRow(c, c * perCourse, w, students, i - |AllRows(c, perCourse, students)|); }
  }
}
