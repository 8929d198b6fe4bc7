/** Before scheduling, all math-family subjects are merged into a single
    subject, so that one math exam is scheduled for all of their students. */
module SubjectMerger {
  import opened Types
  import opened Strings
  import opened Seqs
  import opened ConflictRules

  /** The name of the merged subject; it contains MATEMÀTIQUES, so the merged
      subject still counts as mathematics for the day-compatibility rules. */
  const MergedMathName: string := "MATEMÀTIQUES / MATES CS"

  /** The grouping uses the same three math keys as the compatibility rules. */
  predicate IsMath(s: SubjectStats) {
    InGroup(Upper(s.name), MathGroup)
  }

  predicate NotMath(s: SubjectStats) {
    !IsMath(s)
  }

  /** The students of the subjects in turn, repetitions kept. */
  function StudentsOf(subjects: seq<SubjectStats>): seq<string> {
    if |subjects| == 0 then []
    else StudentsOf(subjects[..|subjects| - 1]) + subjects[|subjects| - 1].students
  }

  /** The merged subject: the union of the students, in order of first
      appearance, and its size as the count. */
  function Merged(math: seq<SubjectStats>): (m: SubjectStats)
    ensures m.name == MergedMathName
    ensures NoDup(m.students) && m.count == |m.students|
  {
    var students := Dedup(StudentsOf(math));
    SubjectStats(MergedMathName, |students|, students)
  }

  /** With at most one math subject the input comes back; otherwise the
      subjects that are not math, in order, followed by the merged subject. */
  function GroupMath(stats: seq<SubjectStats>): seq<SubjectStats> {
    var math := Filter(stats, IsMath);
    if |math| <= 1 then stats
    else Filter(stats, NotMath) + [Merged(math)]
  }

  lemma {:induction false} StudentsOfMembers(subjects: seq<SubjectStats>, x: string)
    ensures x in StudentsOf(subjects) <==> exists i :: 0 <= i < |subjects| && x in subjects[i].students
  {
    if |subjects| > 0 {
      var init := subjects[..|subjects| - 1];
      StudentsOfMembers(init, x);
      if x in subjects[|subjects| - 1].students {
        assert x in StudentsOf(subjects);
      }
      if exists i :: 0 <= i < |subjects| && x in subjects[i].students {
        var i :| 0 <= i < |subjects| && x in subjects[i].students;
        if i < |init| {
          assert x in init[i].students;
        }
      }
    }
  }

  lemma MergedNameIsMath()
    ensures IsMath(SubjectStats(MergedMathName, 0, []))
  {
    assert Upper(MergedMathName) == MergedMathName;
    assert MathGroup[2] <= MergedMathName;
  }

  lemma MergedIsMath(math: seq<SubjectStats>)
    ensures IsMath(Merged(math))
  {
    MergedNameIsMath();
  }

  /** A filter that keeps at least two elements found them at two positions. */
  lemma {:induction false} FilterTwo<T>(s: seq<T>, p: T -> bool)
    requires |Filter(s, p)| >= 2
    ensures exists i, j :: 0 <= i < j < |s| && p(s[i]) && p(s[j])
  {
    assert |s| > 0;
    var rest := Filter(s[1..], p);
    if p(s[0]) {
      assert |rest| >= 1;
      FilterMembers(s[1..], p, rest[0]);
      var j :| 0 <= j < |s[1..]| && s[1..][j] == rest[0];
      assert p(s[0]) && p(s[j + 1]);
    } else {
      FilterTwo(s[1..], p);
      var i, j :| 0 <= i < j < |s[1..]| && p(s[1..][i]) && p(s[1..][j]);
      assert p(s[i + 1]) && p(s[j + 1]);
    }
  }

  lemma {:induction false} FilterNone<T>(s: seq<T>, p: T -> bool)
    requires forall i :: 0 <= i < |s| ==> !p(s[i])
    ensures Filter(s, p) == []
  {
    if |s| > 0 {
      FilterNone(s[1..], p);
    }
  }

  /** Without two math subjects the subjects are returned as given. */
  lemma FewMathUnchanged(stats: seq<SubjectStats>)
    requires forall i, j :: 0 <= i < j < |stats| ==> !(IsMath(stats[i]) && IsMath(stats[j]))
    ensures GroupMath(stats) == stats
  {
    if |Filter(stats, IsMath)| >= 2 {
      FilterTwo(stats, IsMath);
    }
  }

  lemma TwoMathFiltered(stats: seq<SubjectStats>, i: nat, j: nat)
    requires i < j < |stats| && IsMath(stats[i]) && IsMath(stats[j])
    ensures |Filter(stats, IsMath)| >= 2
  {
    FilterAppend(stats[..i + 1], stats[i + 1..], IsMath);
    assert stats == stats[..i + 1] + stats[i + 1..];
    assert stats[i] in stats[..i + 1] && stats[j] in stats[i + 1..];
    FilterMembers(stats[..i + 1], IsMath, stats[i]);
    FilterMembers(stats[i + 1..], IsMath, stats[j]);
  }

  /** With two or more math subjects: the subjects before the last are the
      input's subjects that are not math, in their input order (so exactly
      those subjects are kept), and the last is the merged subject. */
  lemma ManyMathMerged(stats: seq<SubjectStats>, i: nat, j: nat)
    requires i < j < |stats| && IsMath(stats[i]) && IsMath(stats[j])
    ensures var r := GroupMath(stats);
      |r| > 0 && r[|r| - 1] == Merged(Filter(stats, IsMath)) &&
      r[..|r| - 1] == Filter(stats, NotMath) &&
      (forall s :: s in r[..|r| - 1] <==> s in stats && !IsMath(s)) &&
      |r| < |stats|
  {
    TwoMathFiltered(stats, i, j);
    MathSplit(stats);
    var r := GroupMath(stats);
    assert r[..|r| - 1] == Filter(stats, NotMath);
    forall s ensures s in r[..|r| - 1] <==> s in stats && !IsMath(s) {
      FilterMembers(stats, NotMath, s);
    }
  }

  /** Each subject is math or not. */
  lemma {:induction false} MathSplit(s: seq<SubjectStats>)
    ensures |Filter(s, IsMath)| + |Filter(s, NotMath)| == |s|
  {
    if |s| > 0 {
      MathSplit(s[1..]);
    }
  }

  /** The result never holds two math subjects. */
  lemma AtMostOneMath(stats: seq<SubjectStats>)
    ensures var r := GroupMath(stats);
      forall i, j :: 0 <= i < j < |r| ==> !(IsMath(r[i]) && IsMath(r[j]))
  {
    var r := GroupMath(stats);
    if |Filter(stats, IsMath)| <= 1 {
      forall i, j | 0 <= i < j < |r| ensures !(IsMath(r[i]) && IsMath(r[j])) {
        if IsMath(r[i]) && IsMath(r[j]) {
          TwoMathFiltered(stats, i, j);
        }
      }
    }
  }

  /** The merged subject's students are exactly the students of the math subjects. */
  lemma MergedStudents(stats: seq<SubjectStats>, x: string)
    ensures var m := Merged(Filter(stats, IsMath));
      x in m.students <==> exists i :: 0 <= i < |stats| && IsMath(stats[i]) && x in stats[i].students
  {
    var math := Filter(stats, IsMath);
    StudentsOfMembers(math, x);
    if exists k :: 0 <= k < |math| && x in math[k].students {
      var k :| 0 <= k < |math| && x in math[k].students;
      FilterMembers(stats, IsMath, math[k]);
    }
    if exists i :: 0 <= i < |stats| && IsMath(stats[i]) && x in stats[i].students {
      var i :| 0 <= i < |stats| && IsMath(stats[i]) && x in stats[i].students;
      FilterMembers(stats, IsMath, stats[i]);
      assert stats[i] in math;
    }
  }

  /** Grouping again changes nothing. */
  lemma GroupMathIdempotent(stats: seq<SubjectStats>)
    ensures GroupMath(GroupMath(stats)) == GroupMath(stats)
  {
    var math := Filter(stats, IsMath);
    if |math| > 1 {
      var others := Filter(stats, NotMath);
      var m := Merged(math);
      MergedIsMath(math);
      FilterNone(others, IsMath);
      FilterAppend(others, [m], IsMath);
      assert Filter([m], IsMath) == [m];
    }
  }

  /** Some subject of `subjects` has `x` among its students. */
  predicate Sits(subjects: seq<SubjectStats>, x: string) {
    exists i :: 0 <= i < |subjects| && x in subjects[i].students
  }

  lemma SitsSnoc(subjects: seq<SubjectStats>, m: SubjectStats, x: string)
    ensures Sits(subjects + [m], x) <==> Sits(subjects, x) || x in m.students
  {
    var t := subjects + [m];
    if Sits(subjects, x) {
      var i :| 0 <= i < |subjects| && x in subjects[i].students;
      assert t[i] == subjects[i];
    }
    if x in m.students {
      assert t[|subjects|] == m;
    }
    if Sits(t, x) {
      var i :| 0 <= i < |t| && x in t[i].students;
      if i < |subjects| {
        assert t[i] == subjects[i];
      }
    }
  }

  lemma SitsWhere(subjects: seq<SubjectStats>, p: SubjectStats -> bool, s: SubjectStats, x: string)
    requires s in subjects && p(s) && x in s.students
    ensures exists i :: 0 <= i < |subjects| && p(subjects[i]) && x in subjects[i].students
  {
    var k :| 0 <= k < |subjects| && subjects[k] == s;
  }

  /** A student of a subject that is not math sits a subject that is kept. */
  lemma SitsOthers(stats: seq<SubjectStats>, x: string)
    ensures Sits(Filter(stats, NotMath), x) <==>
      exists i :: 0 <= i < |stats| && NotMath(stats[i]) && x in stats[i].students
  {
    var others := Filter(stats, NotMath);
    if Sits(others, x) {
      var i :| 0 <= i < |others| && x in others[i].students;
      FilterMembers(stats, NotMath, others[i]);
      SitsWhere(stats, NotMath, others[i], x);
    }
    if exists i :: 0 <= i < |stats| && NotMath(stats[i]) && x in stats[i].students {
      var i :| 0 <= i < |stats| && NotMath(stats[i]) && x in stats[i].students;
      FilterMembers(stats, NotMath, stats[i]);
      SitsWhere(others, _ => true, stats[i], x);
    }
  }

  /** Merging loses no student and adds none: a student sits some subject
      of the result exactly when they sit some subject of the input. */
  lemma StudentsPreserved(stats: seq<SubjectStats>, x: string)
    ensures Sits(stats, x) <==> Sits(GroupMath(stats), x)
  {
    var math := Filter(stats, IsMath);
    if |math| > 1 {
      var others := Filter(stats, NotMath);
      MergedStudents(stats, x);
      SitsSnoc(others, Merged(math), x);
      SitsOthers(stats, x);
      if Sits(stats, x) {
        var i :| 0 <= i < |stats| && x in stats[i].students;
        assert IsMath(stats[i]) || NotMath(stats[i]);
      }
    }
  }
}
