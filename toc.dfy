/**
 * The load step of the `toc` service: once the server has delivered the
 * lesson table, the service attaches every lesson to its module and lays the
 * locally saved edits over the files' contents.
 *
 * Modules and lessons are objects that the load updates in place. A lesson's
 * back-reference to its module is the module's index in the table of
 * contents. A page is the sequence of its files.
 */
module Toc {
  import opened Options
  import opened Storage
  import Navigation

  /** A source file of a page: the contents shown in the editor, the hash
      under which local edits are saved, and the contents as delivered by the
      server. */
  datatype File = File(content: string, hash: string, origContent: string)

  class Lesson {
    /** The index of the lesson's module; -1 until the load attaches it. */
    var moduleIndex: int
    var pages: seq<seq<File>>

    constructor (pages: seq<seq<File>>)
      ensures this.pages == pages && moduleIndex == -1
    {
      this.pages := pages;
      moduleIndex := -1;
    }
  }

  class Module {
    /** The module's lesson names, in reading order. */
    const lessons: seq<string>
    /** The module's lessons by name, filled in by the load. */
    var lesson: map<string, Lesson>

    constructor (lessons: seq<string>)
      ensures this.lessons == lessons && lesson == map[]
    {
      this.lessons := lessons;
      lesson := map[];
    }
  }

  /** A file after the load: its delivered contents are kept as the
      original, and a saved edit, when there is one, replaces the contents. */
  function Overlay(f: File, saved: Option<string>): (r: File)
    ensures r.hash == f.hash && r.origContent == f.content
    ensures r.content == if saved.Some? then saved.value else f.content
  {
    File(if saved.Some? then saved.value else f.content, f.hash, f.content)
  }

  /** The files of one page, each overlaid from its own hash in `storage`. */
  ghost function OverlayFiles(files: seq<File>, storage: KeyValueStore): seq<File>
    reads storage
  {
    seq(|files|, f requires 0 <= f < |files| reads storage =>
      Overlay(files[f], storage.Get(files[f].hash)))
  }

  /** The pages with every file overlaid from `storage`; no page and no file
      is added, dropped or moved. */
  ghost function OverlayPages(before: seq<seq<File>>, storage: KeyValueStore): seq<seq<File>>
    reads storage
  {
    seq(|before|, p requires 0 <= p < |before| reads storage => OverlayFiles(before[p], storage))
  }

  /** Overlaying keeps the shape of the pages and overlays each file from
      the edit saved under its own hash. */
  lemma OverlayPagesAt(before: seq<seq<File>>, storage: KeyValueStore)
    ensures |OverlayPages(before, storage)| == |before|
    ensures forall p :: 0 <= p < |before| ==> |OverlayPages(before, storage)[p]| == |before[p]|
    ensures forall p, f :: 0 <= p < |before| && 0 <= f < |before[p]| ==>
      OverlayPages(before, storage)[p][f] == Overlay(before[p][f], storage.Get(before[p][f].hash))
  {
  }

  /** Every lesson that a module lists was delivered by the server. */
  ghost predicate AllDelivered(modules: seq<Module>, lessons: map<string, Lesson>) {
    forall j, i :: 0 <= j < |modules| && 0 <= i < |modules[j].lessons| ==>
      modules[j].lessons[i] in lessons
  }

  /** No lesson name is listed twice. */
  ghost predicate DistinctNames(modules: seq<Module>) {
    forall j1, i1, j2, i2 ::
      (0 <= j1 < |modules| && 0 <= i1 < |modules[j1].lessons| &&
       0 <= j2 < |modules| && 0 <= i2 < |modules[j2].lessons| &&
       modules[j1].lessons[i1] == modules[j2].lessons[i2]) ==> j1 == j2 && i1 == i2
  }

  /** The modules are distinct objects. */
  ghost predicate DistinctModules(modules: seq<Module>) {
    forall j1, j2 :: 0 <= j1 < |modules| && 0 <= j2 < |modules| && j1 != j2 ==>
      modules[j1] != modules[j2]
  }

  /** The delivered lessons are distinct objects, as the decoded JSON makes
      them. */
  ghost predicate DistinctLessons(lessons: map<string, Lesson>) {
    forall a, b :: a in lessons && b in lessons && a != b ==> lessons[a] != lessons[b]
  }

  ghost function ModuleObjects(modules: seq<Module>): set<Module> {
    set j | 0 <= j < |modules| :: modules[j]
  }

  ghost function ListedLessons(modules: seq<Module>, lessons: map<string, Lesson>): set<Lesson> {
    set j, i | 0 <= j < |modules| && 0 <= i < |modules[j].lessons| && modules[j].lessons[i] in lessons ::
      lessons[modules[j].lessons[i]]
  }

  /** What `module.lesson` holds after the load: the module's lessons by name. */
  ghost function LessonMap(names: seq<string>, lessons: map<string, Lesson>): map<string, Lesson> {
    map n | n in names && n in lessons :: lessons[n]
  }

  /** The navigation view of the loaded table: the lesson names of every
      module, and every lesson's back-reference. */
  ghost function Names(modules: seq<Module>): seq<seq<string>> {
    seq(|modules|, j requires 0 <= j < |modules| => modules[j].lessons)
  }

  ghost function Owners(lessons: map<string, Lesson>): map<string, int>
    reads lessons.Values
  {
    map n | n in lessons :: lessons[n].moduleIndex
  }

  /** The innermost loop of the load, for page `p` of a lesson: keep each
      file's delivered contents and lay the saved edit over them. */
  method OverlayPage(lesson: Lesson, p: int, storage: KeyValueStore)
    requires 0 <= p < |lesson.pages|
    modifies lesson`pages
    ensures lesson.pages == old(lesson.pages)[p := OverlayFiles(old(lesson.pages)[p], storage)]
  {
    ghost var before: seq<File> := lesson.pages[p];
    for f := 0 to |lesson.pages[p]|
      invariant |lesson.pages| == |old(lesson.pages)|
      invariant lesson.pages == old(lesson.pages)[p := lesson.pages[p]]
      invariant |lesson.pages[p]| == |before|
      invariant forall g :: 0 <= g < |before| ==>
        lesson.pages[p][g] == if g < f then Overlay(before[g], storage.Get(before[g].hash)) else before[g]
    {
      var file := lesson.pages[p][f];
      file := file.(origContent := file.content);
      var val := storage.Get(file.hash);
      if val.Some? {
        file := file.(content := val.value);
      }
      lesson.pages := lesson.pages[p := lesson.pages[p][f := file]];
    }
    assert lesson.pages[p] == OverlayFiles(before, storage);
  }

  /** The two innermost loops of the load, for one lesson: overlay every
      file of every page. */
  method OverlayLesson(lesson: Lesson, storage: KeyValueStore)
    modifies lesson`pages
    ensures lesson.pages == OverlayPages(old(lesson.pages), storage)
  {
    ghost var before: seq<seq<File>> := lesson.pages;
    for p := 0 to |lesson.pages|
      invariant |lesson.pages| == |before|
      invariant forall q :: 0 <= q < |before| ==>
        lesson.pages[q] == if q < p then OverlayFiles(before[q], storage) else before[q]
    {
      OverlayPage(lesson, p, storage);
    }
    assert lesson.pages == OverlayPages(before, storage);
  }

  /** One lesson of the load: point it back at its module and overlay its
      files. */
  method AttachLesson(lesson: Lesson, m: int, storage: KeyValueStore)
    modifies lesson
    ensures lesson.moduleIndex == m
    ensures lesson.pages == OverlayPages(old(lesson.pages), storage)
  {
    lesson.moduleIndex := m;
    OverlayLesson(lesson, storage);
  }

  /** The lessons a module lists, as delivered. */
  ghost function LessonsOf(mod: Module, lessons: map<string, Lesson>): set<Lesson> {
    set i | 0 <= i < |mod.lessons| && mod.lessons[i] in lessons :: lessons[mod.lessons[i]]
  }

  /** Registering lesson `l` extends the map of the lessons before it. */
  lemma LessonMapStep(names: seq<string>, lessons: map<string, Lesson>, l: nat)
    requires l < |names| && names[l] in lessons
    ensures LessonMap(names[..l + 1], lessons) == LessonMap(names[..l], lessons)[names[l] := lessons[names[l]]]
  {
    assert names[..l + 1] == names[..l] + [names[l]];
  }

  /** The lesson at position `l` is no other position's lesson. */
  lemma OtherLessons(names: seq<string>, lessons: map<string, Lesson>, l: nat)
    requires forall i :: 0 <= i < |names| ==> names[i] in lessons
    requires forall i1, i2 :: 0 <= i1 < i2 < |names| ==> names[i1] != names[i2]
    requires DistinctLessons(lessons)
    requires l < |names|
    ensures forall i :: 0 <= i < |names| && i != l ==> lessons[names[i]] != lessons[names[l]]
  {
    forall i | 0 <= i < |names| && i != l
      ensures lessons[names[i]] != lessons[names[l]]
    {
      if i < l { assert names[i] != names[l]; } else { assert names[l] != names[i]; }
    }
  }

  /** The body of the load's loop over modules, for module `m`: empty its
      lesson map, then for each of its lessons point the lesson back at the
      module, register it under its name and overlay its files. */
  method LoadModule(mod: Module, m: int, lessons: map<string, Lesson>, storage: KeyValueStore)
    requires forall i :: 0 <= i < |mod.lessons| ==> mod.lessons[i] in lessons
    requires forall i1, i2 :: 0 <= i1 < i2 < |mod.lessons| ==> mod.lessons[i1] != mod.lessons[i2]
    requires DistinctLessons(lessons)
    modifies mod, LessonsOf(mod, lessons)
    ensures mod.lesson == LessonMap(mod.lessons, lessons)
    ensures forall i :: 0 <= i < |mod.lessons| ==> lessons[mod.lessons[i]].moduleIndex == m
    ensures forall i :: 0 <= i < |mod.lessons| ==>
      lessons[mod.lessons[i]].pages == OverlayPages(old(lessons[mod.lessons[i]].pages), storage)
  {
    mod.lesson := map[];
    for l := 0 to |mod.lessons|
      invariant mod.lesson == LessonMap(mod.lessons[..l], lessons)
      invariant forall i :: 0 <= i < |mod.lessons| ==>
        (i < l ==> lessons[mod.lessons[i]].moduleIndex == m) &&
        lessons[mod.lessons[i]].pages ==
          if i < l then OverlayPages(old(lessons[mod.lessons[i]].pages), storage)
          else old(lessons[mod.lessons[i]].pages)
    {
      var lessonName := mod.lessons[l];
      var lesson := lessons[lessonName];
      OtherLessons(mod.lessons, lessons, l);
      LessonMapStep(mod.lessons, lessons, l);
      assert lesson in LessonsOf(mod, lessons);
      mod.lesson := mod.lesson[lessonName := lesson];
      AttachLesson(lesson, m, storage);
    }
    assert mod.lessons[..|mod.lessons|] == mod.lessons;
  }

  /** The success callback of the lesson-table fetch: load every module in
      turn. */
  method Load(modules: seq<Module>, lessons: map<string, Lesson>, storage: KeyValueStore)
    requires AllDelivered(modules, lessons)
    requires DistinctNames(modules) && DistinctModules(modules) && DistinctLessons(lessons)
    modifies ModuleObjects(modules), ListedLessons(modules, lessons)
    ensures forall j :: 0 <= j < |modules| ==>
      modules[j].lesson == LessonMap(modules[j].lessons, lessons)
    ensures forall j, i :: 0 <= j < |modules| && 0 <= i < |modules[j].lessons| ==>
      lessons[modules[j].lessons[i]].moduleIndex == j
    ensures forall j, i :: 0 <= j < |modules| && 0 <= i < |modules[j].lessons| ==>
      lessons[modules[j].lessons[i]].pages == OverlayPages(old(lessons[modules[j].lessons[i]].pages), storage)
    ensures (forall j :: 0 <= j < |modules| ==> |modules[j].lessons| > 0) ==>
      Navigation.Consistent(Navigation.Table(Names(modules), Owners(lessons)))
  {
    for m := 0 to |modules|
      invariant forall j :: 0 <= j < m ==> modules[j].lesson == LessonMap(modules[j].lessons, lessons)
      invariant forall j, i :: 0 <= j < |modules| && 0 <= i < |modules[j].lessons| ==>
        (j < m ==> lessons[modules[j].lessons[i]].moduleIndex == j) &&
        lessons[modules[j].lessons[i]].pages ==
          if j < m then OverlayPages(old(lessons[modules[j].lessons[i]].pages), storage)
          else old(lessons[modules[j].lessons[i]].pages)
    {
      var mod := modules[m];
      ModuleFrame(modules, lessons, m);
      LoadModule(mod, m, lessons, storage);
    }
    LoadedTableConsistent(modules, lessons);
  }

  /** Module `m` may be loaded on its own: its lessons are delivered and
      distinct, they are among the listed lessons, and no lesson of another
      module is among them. */
  lemma ModuleFrame(modules: seq<Module>, lessons: map<string, Lesson>, m: int)
    requires AllDelivered(modules, lessons)
    requires DistinctNames(modules) && DistinctLessons(lessons)
    requires 0 <= m < |modules|
    ensures modules[m] in ModuleObjects(modules)
    ensures forall i :: 0 <= i < |modules[m].lessons| ==> modules[m].lessons[i] in lessons
    ensures forall i1, i2 :: 0 <= i1 < i2 < |modules[m].lessons| ==>
      modules[m].lessons[i1] != modules[m].lessons[i2]
    ensures LessonsOf(modules[m], lessons) <= ListedLessons(modules, lessons)
    ensures forall j, i :: 0 <= j < |modules| && j != m && 0 <= i < |modules[j].lessons| ==>
      lessons[modules[j].lessons[i]] !in LessonsOf(modules[m], lessons)
  {
    forall l | l in LessonsOf(modules[m], lessons)
      ensures l in ListedLessons(modules, lessons)
    {
      var i :| 0 <= i < |modules[m].lessons| && modules[m].lessons[i] in lessons &&
        l == lessons[modules[m].lessons[i]];
    }
  }

  /** The back-references the load leaves behind make the table consistent
      for navigation, provided no module is empty. */
  lemma LoadedTableConsistent(modules: seq<Module>, lessons: map<string, Lesson>)
    requires AllDelivered(modules, lessons) && DistinctNames(modules)
    requires forall j, i :: 0 <= j < |modules| && 0 <= i < |modules[j].lessons| ==>
      lessons[modules[j].lessons[i]].moduleIndex == j
    ensures (forall j :: 0 <= j < |modules| ==> |modules[j].lessons| > 0) ==>
      Navigation.Consistent(Navigation.Table(Names(modules), Owners(lessons)))
  {
    var t := Navigation.Table(Names(modules), Owners(lessons));
    assert forall j :: 0 <= j < |modules| ==> t.modules[j] == modules[j].lessons;
  }
}
