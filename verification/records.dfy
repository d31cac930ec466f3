/** The in-memory record store of the grade system: a map from student name to
    student record, and the add / update / delete / lookup flows that change or
    read it. Console input is abstracted as a finite sequence of entries, one
    per round of an entry loop; a flow that reports a change also reports
    whether it asked for the store to be saved. */
module Records {
  import opened Wrappers

  /** The subject line that ends an entry loop. */
  const Done: string := "done"

  /** A student record: its name and a grade per subject. */
  datatype Student = Student(name: string, grades: map<string, real>)

  /** The whole roster, keyed by student name. */
  type Store = map<string, Student>

  /** One round of an entry loop: the trimmed subject line and, when the round
      gets that far, the grade line after it as parsed (None when the parse
      fails). When `subject` is `Done` the grade line is never read and
      `grade` is ignored. */
  datatype Entry = Entry(subject: string, grade: Option<real>)

  /** What a mutating flow leaves behind: the store and whether it saved it. */
  datatype Outcome = Outcome(store: Store, saved: bool)

  /** What the update entry loop leaves behind: the student's grades and
      whether the loop ended at `Done` (true) or returned early (false). */
  datatype Updated = Updated(grades: map<string, real>, finished: bool)

  /** Map lookup with the Go `v, ok := m[k]` shape. */
  function Get<K, V>(m: map<K, V>, k: K): Option<V>
  {
    if k in m then Some(m[k]) else None
  }

  /** The store invariant: every key is the name of the record stored under it. */
  predicate WellKeyed(store: Store)
  {
    forall k :: k in store ==> store[k].name == k
  }

  /** Index of the first `Done` subject, or `|es|` when there is none. */
  function FirstDone(es: seq<Entry>): (i: nat)
    ensures i <= |es|
    ensures i < |es| ==> es[i].subject == Done
    ensures forall j :: 0 <= j < i ==> es[j].subject != Done
  {
    if |es| == 0 then 0
    else if es[0].subject == Done then 0
    else 1 + FirstDone(es[1..])
  }

  /** Index of the first entry that stops the update loop: a `Done` subject or
      a grade that does not parse; `|es|` when there is none. */
  function FirstStop(es: seq<Entry>): (i: nat)
    ensures i <= |es|
    ensures i < |es| ==> es[i].subject == Done || es[i].grade.None?
    ensures forall j :: 0 <= j < i ==> es[j].subject != Done && es[j].grade.Some?
  {
    if |es| == 0 then 0
    else if es[0].subject == Done || es[0].grade.None? then 0
    else 1 + FirstStop(es[1..])
  }

  /** The grade of the last entry for `s` whose grade parsed, if any. This is
      the reference against which both entry loops are stated. */
  function LastGrade(es: seq<Entry>, s: string): Option<real>
    decreases |es|
  {
    if |es| == 0 then None
    else
      var n := |es| - 1;
      if es[n].subject == s && es[n].grade.Some? then es[n].grade
      else LastGrade(es[..n], s)
  }

  /** Over the first `n` entries, `LastGrade` finds a grade exactly when some
      entry for `s` among them has a valid grade, and the grade it finds is
      that of the last such entry. */
  lemma {:induction false} LastGradeSpec(es: seq<Entry>, n: nat, s: string)
    requires n <= |es|
    ensures LastGrade(es[..n], s).Some? <==>
      exists i :: 0 <= i < n && es[i].subject == s && es[i].grade.Some?
    ensures LastGrade(es[..n], s).Some? ==>
      exists i :: 0 <= i < n && es[i].subject == s && es[i].grade == LastGrade(es[..n], s) &&
        forall k :: i < k < n ==> !(es[k].subject == s && es[k].grade.Some?)
    decreases n
  {
    if n > 0 {
      var p := es[..n];
      var last := es[n - 1];
      assert p[n - 1] == last;
      if last.subject == s && last.grade.Some? {
        assert LastGrade(p, s) == last.grade;
      } else {
        assert p[..n - 1] == es[..n - 1];
        assert LastGrade(p, s) == LastGrade(es[..n - 1], s);
        LastGradeSpec(es, n - 1, s);
        if LastGrade(p, s).Some? {
          var i :| 0 <= i < n - 1 && es[i].subject == s && es[i].grade == LastGrade(p, s) &&
            forall k :: i < k < n - 1 ==> !(es[k].subject == s && es[k].grade.Some?);
          assert forall k :: i < k < n ==> !(es[k].subject == s && es[k].grade.Some?);
        }
      }
    }
  }

  /** Peeling the first entry off: a later valid grade for `s` wins over the
      first one. */
  lemma {:induction false} LastGradeCons(e: Entry, es: seq<Entry>, s: string)
    ensures LastGrade([e] + es, s)
         == OrElse(LastGrade(es, s), if e.subject == s && e.grade.Some? then e.grade else None)
    decreases |es|
  {
    if |es| == 0 {
      assert [e] + es == [e];
      assert [e][..0] == [];
    } else {
      var n := |es|;
      assert ([e] + es)[..n] == [e] + es[..n - 1];
      assert ([e] + es)[n] == es[n - 1];
      LastGradeCons(e, es[..n - 1], s);
    }
  }

  /** The same, for the first `n + 1` entries of a nonempty input. */
  lemma LastGradeDropFirst(es: seq<Entry>, n: nat, s: string)
    requires n < |es|
    ensures LastGrade(es[..1 + n], s)
         == OrElse(LastGrade(es[1..][..n], s), if es[0].subject == s && es[0].grade.Some? then es[0].grade else None)
  {
    assert es[..1 + n] == [es[0]] + es[1..][..n];
    LastGradeCons(es[0], es[1..][..n], s);
  }

  /** The subject/grade loop of the add flow, from the accumulated map `acc`.
      It stops at the first `Done`; a grade that does not parse is skipped.
      When the input runs out before `Done` every further read yields the
      empty line, which is neither `Done` nor a number, so the Go loop never
      ends: the result is then None. */
  function AddEntries(acc: map<string, real>, es: seq<Entry>): (r: Option<map<string, real>>)
    ensures r.Some? <==> FirstDone(es) < |es|
    ensures r.Some? ==>
      forall s :: Get(r.value, s) == OrElse(LastGrade(es[..FirstDone(es)], s), Get(acc, s))
    decreases |es|
  {
    if |es| == 0 then None
    else if es[0].subject == Done then
      assert es[..0] == [];
      Some(acc)
    else
      var e := es[0];
      var acc' := if e.grade.Some? then acc[e.subject := e.grade.value] else acc;
      var r := AddEntries(acc', es[1..]);
      var n := FirstDone(es[1..]);
      assert forall s ::
          LastGrade(es[..1 + n], s)
          == OrElse(LastGrade(es[1..][..n], s), if e.subject == s && e.grade.Some? then e.grade else None)
        by {
          forall s { LastGradeDropFirst(es, n, s); }
        }
      r
  }

  /** The subject/grade loop of the update flow on the grades of one student.
      Every entry before the first stop overwrites or inserts its one subject;
      the loop finishes normally only when that stop is `Done`. Running out of
      input reads an empty grade line, which does not parse: an early return. */
  function UpdateEntries(grades: map<string, real>, es: seq<Entry>): (r: Updated)
    ensures r.finished <==> FirstStop(es) < |es| && es[FirstStop(es)].subject == Done
    ensures forall s :: Get(r.grades, s) == OrElse(LastGrade(es[..FirstStop(es)], s), Get(grades, s))
    decreases |es|
  {
    if |es| == 0 then Updated(grades, false)
    else if es[0].subject == Done then
      assert es[..0] == [];
      Updated(grades, true)
    else if es[0].grade.None? then
      assert es[..0] == [];
      Updated(grades, false)
    else
      var e := es[0];
      var r := UpdateEntries(grades[e.subject := e.grade.value], es[1..]);
      var n := FirstStop(es[1..]);
      assert forall s ::
          LastGrade(es[..1 + n], s)
          == OrElse(LastGrade(es[1..][..n], s), if e.subject == s then e.grade else None)
        by {
          forall s { LastGradeDropFirst(es, n, s); }
        }
      r
  }

  /** addStudent: reads a name and the entry loop, then stores a fresh record
      under that name (replacing any earlier one) and saves. None when the
      entry loop never ends. */
  function AddStudent(store: Store, name: string, es: seq<Entry>): (r: Option<Outcome>)
    ensures r.Some? <==> FirstDone(es) < |es|
    ensures r.Some? ==> r.value.saved
    ensures r.Some? ==> r.value.store.Keys == store.Keys + {name}
    ensures r.Some? ==> r.value.store[name].name == name
    ensures r.Some? ==>
      forall s :: Get(r.value.store[name].grades, s) == LastGrade(es[..FirstDone(es)], s)
    ensures r.Some? ==> forall k :: k != name ==> Get(r.value.store, k) == Get(store, k)
    ensures r.Some? && WellKeyed(store) ==> WellKeyed(r.value.store)
  {
    var empty: map<string, real> := map[];
    match AddEntries(empty, es)
    case None => None
    case Some(grades) =>
      assert forall s :: Get(grades, s) == LastGrade(es[..FirstDone(es)], s) by {
        forall s ensures Get(grades, s) == LastGrade(es[..FirstDone(es)], s) {
          assert Get(empty, s) == None;
        }
      }
      Some(Outcome(store[name := Student(name, grades)], true))
  }

  /** updateStudentGrades: an unknown name changes nothing and saves nothing;
      otherwise the entry loop edits that student's grades in place, and the
      store is saved only when the loop ended at `Done`. Edits made before an
      early return stay in the store. */
  function UpdateStudentGrades(store: Store, name: string, es: seq<Entry>): (r: Outcome)
    ensures name !in store ==> r.store == store && !r.saved
    ensures r.store.Keys == store.Keys
    ensures name in store ==> r.store[name].name == store[name].name
    ensures name in store ==>
      forall s :: Get(r.store[name].grades, s)
               == OrElse(LastGrade(es[..FirstStop(es)], s), Get(store[name].grades, s))
    ensures name in store ==>
      (r.saved <==> FirstStop(es) < |es| && es[FirstStop(es)].subject == Done)
    ensures forall k :: k != name ==> Get(r.store, k) == Get(store, k)
    ensures WellKeyed(store) ==> WellKeyed(r.store)
  {
    if name !in store then Outcome(store, false)
    else
      var student := store[name];
      var u := UpdateEntries(student.grades, es);
      Outcome(store[name := student.(grades := u.grades)], u.finished)
  }

  /** deleteStudent: an unknown name changes nothing and saves nothing;
      otherwise exactly that record is removed and the store is saved. */
  function DeleteStudent(store: Store, name: string): (r: Outcome)
    ensures r.saved <==> name in store
    ensures r.store.Keys == store.Keys - {name}
    ensures forall k :: k != name ==> Get(r.store, k) == Get(store, k)
    ensures WellKeyed(store) ==> WellKeyed(r.store)
  {
    if name !in store then Outcome(store, false)
    else Outcome(store - {name}, true)
  }

  /** The lookup shared by searchStudent and viewAvgGrade. On a well-keyed
      store the record found carries the name it was looked up by. */
  function Lookup(store: Store, name: string): (r: Option<Student>)
    ensures r.Some? <==> name in store
    ensures r.Some? ==> r.value == store[name]
    ensures WellKeyed(store) && r.Some? ==> r.value.name == name
  {
    Get(store, name)
  }

  /** A subject entered with a valid grade before `Done` is found under the
      new student, with the last such grade. */
  lemma {:induction false} AddThenLookup(store: Store, name: string, es: seq<Entry>, i: nat)
    requires FirstDone(es) < |es|
    requires i < FirstDone(es) && es[i].grade.Some?
    ensures AddStudent(store, name, es).Some?
    ensures Lookup(AddStudent(store, name, es).value.store, name).Some?
    ensures es[i].subject in Lookup(AddStudent(store, name, es).value.store, name).value.grades
    ensures Lookup(AddStudent(store, name, es).value.store, name).value.grades[es[i].subject]
         == LastGrade(es[..FirstDone(es)], es[i].subject).value
  {
    var p := es[..FirstDone(es)];
    LastGradeSpec(es, FirstDone(es), es[i].subject);
    var st := AddStudent(store, name, es).value.store;
    assert Get(st[name].grades, es[i].subject) == LastGrade(p, es[i].subject);
  }

  /** The new student's subjects are exactly those entered with at least one
      valid grade before `Done`, and a repeated subject keeps the grade of its
      last valid entry. */
  lemma {:induction false} AddedGrades(store: Store, name: string, es: seq<Entry>, s: string)
    requires FirstDone(es) < |es|
    ensures AddStudent(store, name, es).Some?
    ensures var g := AddStudent(store, name, es).value.store[name].grades;
      (s in g <==> exists i :: 0 <= i < FirstDone(es) && es[i].subject == s && es[i].grade.Some?)
    ensures var g := AddStudent(store, name, es).value.store[name].grades;
      s in g ==>
        exists i :: 0 <= i < FirstDone(es) && es[i] == Entry(s, Some(g[s])) &&
          forall k :: i < k < FirstDone(es) ==> !(es[k].subject == s && es[k].grade.Some?)
  {
    var n := FirstDone(es);
    var g := AddStudent(store, name, es).value.store[name].grades;
    var last := LastGrade(es[..n], s);
    assert Get(g, s) == last;
    LastGradeSpec(es, n, s);
    if s in g {
      var i :| 0 <= i < n && es[i].subject == s && es[i].grade == last &&
        forall k :: i < k < n ==> !(es[k].subject == s && es[k].grade.Some?);
      assert es[i] == Entry(s, Some(g[s]));
    }
  }

  /** An update changes no subject that no entry before the stop names. */
  lemma {:induction false} UpdateLeavesOtherSubjects(store: Store, name: string, es: seq<Entry>, s: string)
    requires name in store
    requires forall i :: 0 <= i < FirstStop(es) ==> es[i].subject != s
    ensures Get(UpdateStudentGrades(store, name, es).store[name].grades, s) == Get(store[name].grades, s)
  {
    LastGradeSpec(es, FirstStop(es), s);
  }

  /** A deleted student is not found afterwards. */
  lemma DeleteThenLookup(store: Store, name: string)
    ensures Lookup(DeleteStudent(store, name).store, name).None?
  {
  }
}
