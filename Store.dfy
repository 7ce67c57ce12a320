/**
 * The `courses` directory on disk and the run over all courses:
 * `check_course` creates the course's directory when it is missing,
 * collects the links of its topics and downloads each of them. The
 * directory tree is a field that the methods update in place; the
 * functions beside the class say what a run leaves behind, and the lemmas
 * prove that a second run against the same remote side changes nothing.
 */
module Store {
  import opened Wrappers
  import opened Filename
  import opened Url
  import opened Download
  import opened Discovery

  /** The `courses` directory: each course directory by name, with its files. */
  type Tree = map<string, Directory>

  /** The topics of each course page, by the course's URL (`session.get(course[1])` and its parse). */
  type Pages = string -> seq<seq<Link>>

  /** The course directory of a course: its name made into a valid file name. */
  function CourseDir(course: Course): (d: string)
    ensures forall i :: 0 <= i < |d| ==> IsKept(d[i])
  {
    Sanitize(course.name)
  }

  /** What `check_course` does to the tree: the course directory and the writes its links plan. */
  datatype CoursePlan = CoursePlan(dir: string, writes: seq<Option<Write>>)

  function PlanOf(course: Course, pages: Pages, remote: Remote): (plan: CoursePlan)
    ensures plan.dir == CourseDir(course)
    ensures Names(plan.writes) == EligibleNames(Flatten(pages(course.url)), remote)
  {
    PlannedNames(Flatten(pages(course.url)), remote);
    CoursePlan(CourseDir(course), Plans(Flatten(pages(course.url)), remote))
  }

  /** The directory is created when missing, then the planned writes are applied to it. */
  function Step(tree: Tree, plan: CoursePlan): Tree
  {
    var base := if plan.dir in tree then tree[plan.dir] else map[];
    tree[plan.dir := ApplyAll(base, plan.writes)]
  }

  /** The plans applied one after another. */
  function RunPlans(tree: Tree, plans: seq<CoursePlan>): Tree
  {
    if plans == [] then tree else Step(RunPlans(tree, plans[..|plans| - 1]), plans[|plans| - 1])
  }

  /** What `check_course` leaves in the tree for one course. */
  function CourseStep(tree: Tree, course: Course, pages: Pages, remote: Remote): (tree': Tree)
    ensures var d := CourseDir(course);
      tree' == tree[d := AfterLinks(if d in tree then tree[d] else map[], Flatten(pages(course.url)), remote)]
  {
    var plan := PlanOf(course, pages, remote);
    var base := if plan.dir in tree then tree[plan.dir] else map[];
    assert ApplyAll(base, plan.writes) == AfterLinks(base, Flatten(pages(course.url)), remote);
    Step(tree, plan)
  }

  /** The plans of the courses, in order. */
  function CoursePlans(courses: seq<Course>, pages: Pages, remote: Remote): (plans: seq<CoursePlan>)
    ensures |plans| == |courses|
    ensures forall i :: 0 <= i < |courses| ==> plans[i] == PlanOf(courses[i], pages, remote)
  {
    seq(|courses|, i requires 0 <= i < |courses| => PlanOf(courses[i], pages, remote))
  }

  /**
   * What the run over all courses, one after another, leaves in the tree:
   * no directory disappears and every course has its directory.
   */
  function AfterCourses(tree: Tree, courses: seq<Course>, pages: Pages, remote: Remote): (tree': Tree)
    ensures tree.Keys <= tree'.Keys
    ensures forall i :: 0 <= i < |courses| ==> CourseDir(courses[i]) in tree'
  {
    var plans := CoursePlans(courses, pages, remote);
    RunPlansGrows(tree, plans);
    RunPlansDone(tree, plans);
    RunPlans(tree, plans)
  }

  /** Nothing is deleted and no file is overwritten between `tree` and `tree'`. */
  predicate Grows(tree: Tree, tree': Tree)
  {
    forall d :: d in tree ==>
      d in tree' && (forall n :: n in tree[d] ==> n in tree'[d] && tree'[d][n] == tree[d][n])
  }

  /** Every file a plan would write is already in its directory. */
  predicate Done(tree: Tree, plan: CoursePlan)
  {
    plan.dir in tree && Names(plan.writes) <= tree[plan.dir].Keys
  }

  /** Every file the course's links lead to is already in the course directory. */
  predicate Complete(tree: Tree, course: Course, pages: Pages, remote: Remote)
  {
    CourseDir(course) in tree &&
    EligibleNames(Flatten(pages(course.url)), remote) <= tree[CourseDir(course)].Keys
  }

  lemma GrowsTransitive(t1: Tree, t2: Tree, t3: Tree)
    requires Grows(t1, t2) && Grows(t2, t3)
    ensures Grows(t1, t3)
  {
  }

  /** One step never deletes or overwrites a file and leaves its plan done. */
  lemma StepEffect(tree: Tree, plan: CoursePlan)
    ensures Grows(tree, Step(tree, plan))
    ensures Done(Step(tree, plan), plan)
  {
    var base := if plan.dir in tree then tree[plan.dir] else map[];
    ApplyAllNames(base, plan.writes);
    ApplyAllKeeps(base, plan.writes);
  }

  /** A plan that is done changes nothing. */
  lemma StepNoOp(tree: Tree, plan: CoursePlan)
    requires Done(tree, plan)
    ensures Step(tree, plan) == tree
  {
    ApplyAllNoOp(tree[plan.dir], plan.writes);
  }

  /** Files present before stay present, so a plan once done stays done. */
  lemma DoneGrows(tree: Tree, tree': Tree, plan: CoursePlan)
    requires Done(tree, plan) && Grows(tree, tree')
    ensures Done(tree', plan)
  {
  }

  lemma {:induction false} RunPlansGrows(tree: Tree, plans: seq<CoursePlan>)
    ensures Grows(tree, RunPlans(tree, plans))
  {
    if plans != [] {
      var mid := RunPlans(tree, plans[..|plans| - 1]);
      RunPlansGrows(tree, plans[..|plans| - 1]);
      StepEffect(mid, plans[|plans| - 1]);
      GrowsTransitive(tree, mid, RunPlans(tree, plans));
    }
  }

  lemma {:induction false} RunPlansDone(tree: Tree, plans: seq<CoursePlan>)
    ensures forall i :: 0 <= i < |plans| ==> Done(RunPlans(tree, plans), plans[i])
  {
    if plans != [] {
      var init := plans[..|plans| - 1];
      var mid := RunPlans(tree, init);
      var after := RunPlans(tree, plans);
      RunPlansDone(tree, init);
      StepEffect(mid, plans[|plans| - 1]);
      forall i | 0 <= i < |init|
        ensures Done(after, plans[i])
      {
        assert plans[i] == init[i];
        DoneGrows(mid, after, plans[i]);
      }
    }
  }

  lemma {:induction false} RunPlansNoOp(tree: Tree, plans: seq<CoursePlan>)
    requires forall i :: 0 <= i < |plans| ==> Done(tree, plans[i])
    ensures RunPlans(tree, plans) == tree
  {
    if plans != [] {
      var init := plans[..|plans| - 1];
      assert forall i :: 0 <= i < |init| ==> init[i] == plans[i];
      RunPlansNoOp(tree, init);
      StepNoOp(tree, plans[|plans| - 1]);
    }
  }

  /** The run over all courses never deletes or overwrites anything on disk. */
  lemma AfterCoursesGrows(tree: Tree, courses: seq<Course>, pages: Pages, remote: Remote)
    ensures Grows(tree, AfterCourses(tree, courses, pages, remote))
  {
    RunPlansGrows(tree, CoursePlans(courses, pages, remote));
  }

  /** After the run, every course has every file its links lead to. */
  lemma AfterCoursesComplete(tree: Tree, courses: seq<Course>, pages: Pages, remote: Remote, i: nat)
    requires i < |courses|
    ensures Complete(AfterCourses(tree, courses, pages, remote), courses[i], pages, remote)
  {
    var plans := CoursePlans(courses, pages, remote);
    RunPlansDone(tree, plans);
    assert Done(RunPlans(tree, plans), plans[i]);
  }

  /**
   * Running the whole program a second time against an unchanged Moodle
   * writes nothing: every file is found and skipped.
   */
  lemma RerunIsIdempotent(tree: Tree, courses: seq<Course>, pages: Pages, remote: Remote)
    ensures AfterCourses(AfterCourses(tree, courses, pages, remote), courses, pages, remote)
         == AfterCourses(tree, courses, pages, remote)
  {
    var plans := CoursePlans(courses, pages, remote);
    RunPlansDone(tree, plans);
    RunPlansNoOp(RunPlans(tree, plans), plans);
  }

  /** One more `check_course` call continues the run over the courses. */
  lemma CheckCoursesStep(t0: Tree, t: Tree, t': Tree, courses: seq<Course>, pages: Pages, remote: Remote, i: nat)
    requires i < |courses|
    requires t == AfterCourses(t0, courses[..i], pages, remote)
    requires t' == CourseStep(t, courses[i], pages, remote)
    ensures t' == AfterCourses(t0, courses[..i + 1], pages, remote)
  {
    var plans := CoursePlans(courses[..i + 1], pages, remote);
    assert plans[..i] == CoursePlans(courses[..i], pages, remote);
  }

  /** `check_course` creates the directory if needed and downloads the course's links into it. */
  lemma CheckCourseStep(t0: Tree, t': Tree, course: Course, pages: Pages, remote: Remote)
    requires var d := CourseDir(course);
      t' == t0[d := AfterLinks(if d in t0 then t0[d] else map[], Flatten(pages(course.url)), remote)]
    ensures t' == CourseStep(t0, course, pages, remote)
  {
  }

  /** One more `download_file` call continues the run over a course's links. */
  lemma DownloadLinksStep(t0: Tree, t: Tree, t': Tree, d: string, links: seq<Link>, remote: Remote, i: nat)
    requires i < |links| && d in t0
    requires t == t0[d := AfterLinks(t0[d], links[..i], remote)]
    requires t' == t[d := AfterDownload(t[d], links[i].href, remote)]
    ensures t' == t0[d := AfterLinks(t0[d], links[..i + 1], remote)]
  {
    AfterLinksStep(t0[d], links, remote, i);
  }

  /** The `courses` directory, updated in place as the program runs. */
  class CourseStore {
    var tree: Tree

    /** The directory as found on disk when the program starts. */
    constructor(existing: Tree)
      ensures tree == existing
    {
      tree := existing;
    }

    /** `os.mkdir(course_dirname)` unless a directory of that name is there. */
    method MakeCourseDir(course: Course) returns (dirName: string)
      modifies this
      ensures dirName == CourseDir(course)
      ensures tree == if dirName in old(tree) then old(tree) else old(tree)[dirName := map[]]
    {
      dirName := Sanitize(course.name);
      if dirName !in tree {
        tree := tree[dirName := map[]];
      }
    }

    /**
     * `download_file` for one link of the course in `dirName`: the outcome
     * is the one `Decide` gives, and the body is written chunk by chunk,
     * skipping empty chunks, into a new file.
     */
    method DownloadFile(dirName: string, link: Link, remote: Remote) returns (o: Outcome)
      requires dirName in tree
      modifies this
      ensures o == Decide(old(tree)[dirName], link.href, remote)
      ensures tree == old(tree)[dirName := AfterDownload(old(tree)[dirName], link.href, remote)]
    {
      var href := link.href;
      if !IsResourceLink(href) {
        return NotResource;
      }
      var webFile := remote(href);
      if FetchFails(webFile) {
        return FetchFailed;
      }
      var fileName := FileNameFromUrl(webFile.finalUrl);
      if IsDirectoryName(fileName) {
        return CannotOpen(fileName);
      }
      if fileName in tree[dirName] {
        return FileFound(fileName);
      }
      WriteFile(dirName, fileName, webFile.chunks);
      return FileCreated(fileName);
    }

    /**
     * `open(file_loc, 'wb')` and the write loop: a new file holding the
     * non-empty chunks one after another, that is, the whole body.
     */
    method WriteFile(dirName: string, fileName: string, chunks: seq<Bytes>)
      requires dirName in tree
      modifies this
      ensures tree == old(tree)[dirName := old(tree)[dirName][fileName := Concat(chunks)]]
    {
      var t0 := tree;
      var dir := tree[dirName];
      var file: Bytes := [];
      tree := t0[dirName := dir[fileName := file]];
      for i := 0 to |chunks|
        invariant file == Concat(NonEmpty(chunks[..i]))
        invariant tree == t0[dirName := dir[fileName := file]]
        invariant t0 == old(tree)
      {
        ConcatNonEmptyStep(chunks, i);
        if chunks[i] != [] {
          file := file + chunks[i];
          tree := t0[dirName := dir[fileName := file]];
        }
      }
      assert chunks[..|chunks|] == chunks;
      ConcatNonEmpty(chunks);
    }

    /** `download_file` for each link in turn. */
    method DownloadLinks(dirName: string, links: seq<Link>, remote: Remote)
      requires dirName in tree
      modifies this
      ensures tree == old(tree)[dirName := AfterLinks(old(tree)[dirName], links, remote)]
    {
      assert links[..0] == [];
      for i := 0 to |links|
        invariant tree == old(tree)[dirName := AfterLinks(old(tree)[dirName], links[..i], remote)]
      {
        ghost var t := tree;
        var _ := DownloadFile(dirName, links[i], remote);
        DownloadLinksStep(old(tree), t, tree, dirName, links, remote, i);
      }
      assert links[..|links|] == links;
    }

    /**
     * `check_course` for one course: its directory, the links of the topics
     * of its page, and each link's download.
     */
    method CheckCourse(course: Course, pages: Pages, remote: Remote)
      modifies this
      ensures tree == CourseStep(old(tree), course, pages, remote)
    {
      ghost var t0 := tree;
      var dirName := MakeCourseDir(course);
      ghost var base := tree[dirName];
      assert base == if dirName in t0 then t0[dirName] else map[];
      var topics := pages(course.url);
      var courseLinks := CollectLinks(topics);
      DownloadLinks(dirName, courseLinks, remote);
      CheckCourseStep(t0, tree, course, pages, remote);
    }

    /** `check_course` for each course in turn. */
    method CheckCourses(courses: seq<Course>, pages: Pages, remote: Remote)
      modifies this
      ensures tree == AfterCourses(old(tree), courses, pages, remote)
    {
      assert courses[..0] == [];
      for i := 0 to |courses|
        invariant tree == AfterCourses(old(tree), courses[..i], pages, remote)
      {
        ghost var t := tree;
        CheckCourse(courses[i], pages, remote);
        CheckCoursesStep(old(tree), t, tree, courses, pages, remote, i);
      }
      assert courses[..|courses|] == courses;
    }
  }
}
