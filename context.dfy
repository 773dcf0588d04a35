/** The project context handed to the agent: six core source files read with a
    fallback for missing ones, stitched into one template after a fixed listing
    of the source tree. The file system is a parameter that says how reading
    each path turns out. */
module Context {

  import Strings

  /** How reading one file turns out. */
  datatype ReadOutcome = Read(content: string) | NotFound | Failed

  /** What a read yields to its caller: text, or the end of the process with an
      exit status. */
  datatype FileText = Text(text: string) | Exit(status: int)

  /** The placeholder that stands in for a missing file, followed by its path. */
  const MissingPrefix: string := "// [파일 없음] "

  /** `readFileContent`: the content of a readable file, a placeholder naming the
      path of a missing one, and exit status 1 on any other read error. */
  function ReadFileContent(path: string, outcome: ReadOutcome): (r: FileText)
    ensures r.Exit? <==> outcome.Failed?
    ensures r.Exit? ==> r.status == 1
    ensures outcome.Read? ==> r.text == outcome.content
    ensures outcome.NotFound? ==> r.text == MissingPrefix + path
  {
    match outcome
    case Read(content) => Text(content)
    case NotFound => Text(MissingPrefix + path)
    case Failed => Exit(1)
  }

  /** A core file and the heading it gets in the context. */
  datatype CoreFile = CoreFile(path: string, title: string)

  /** The six core files, in the order they are read and laid out. */
  const CoreFiles: seq<CoreFile> := [
    CoreFile("src/types.ts", "[핵심 파일 1: src/types.ts - 데이터 모델]"),
    CoreFile("src/hooks/useEventOperations.ts", "[핵심 파일 2: src/hooks/useEventOperations.ts - CRUD/API 로직]"),
    CoreFile("src/hooks/useEventForm.ts", "[핵심 파일 3: src/hooks/useEventForm.ts - フォーム/유효성 로직]"),
    CoreFile("src/utils/dateUtils.ts", "[핵심 파일 4: src/utils/dateUtils.ts - 날짜 유틸]"),
    CoreFile("src/hooks/useCalendarView.ts", "[핵심 파일 5: src/hooks/useCalendarView.ts - 캘린더 뷰 로직]"),
    CoreFile("src/utils/eventOverlap.ts", "[핵심 파일 6: src/utils/eventOverlap.ts - 일정 겹침 로직]")
  ]

  /** The line that separates the parts of the context. */
  const Rule: string := "\n---\n"

  /** No read of a file of `files` fails. */
  predicate AllReadable(fs: string -> ReadOutcome, files: seq<CoreFile>)
  {
    forall i :: 0 <= i < |files| ==> !fs(files[i].path).Failed?
  }

  /** A list is readable exactly when its first file and the rest are. */
  lemma AllReadableStep(fs: string -> ReadOutcome, files: seq<CoreFile>)
    requires files != []
    ensures AllReadable(fs, files) <==> !fs(files[0].path).Failed? && AllReadable(fs, files[1..])
  {
    if !fs(files[0].path).Failed? && AllReadable(fs, files[1..]) {
      forall i | 1 <= i < |files| ensures !fs(files[i].path).Failed? {
        assert files[i] == files[1..][i - 1];
      }
    }
    if AllReadable(fs, files) {
      forall i | 0 <= i < |files[1..]| ensures !fs(files[1..][i].path).Failed? {
        assert files[1..][i] == files[i + 1];
      }
    }
  }

  /** The texts of `files` read one after the other; the first read that fails
      ends the process with status 1, and no later file is read. */
  function ReadAll(fs: string -> ReadOutcome, files: seq<CoreFile>): (r: FileText)
    ensures r.Exit? <==> !AllReadable(fs, files)
    ensures r.Exit? ==> r.status == 1
  {
    if files == [] then Text([])
    else
      AllReadableStep(fs, files);
      match ReadFileContent(files[0].path, fs(files[0].path))
      case Exit(status) => Exit(status)
      case Text(t) =>
        match ReadAll(fs, files[1..])
        case Exit(status) => Exit(status)
        case Text(more) => Text(Rule + files[0].title + "\n" + t + more)
  }

  /** `getProjectContext`: the file listing, then one section per core file, then
      a closing rule; or the exit status of the first failed read. */
  function ProjectContext(fs: string -> ReadOutcome, fileStructure: string): (r: FileText)
    ensures r.Exit? <==> exists i :: 0 <= i < |CoreFiles| && fs(CoreFiles[i].path).Failed?
    ensures r.Exit? ==> r.status == 1
  {
    match ReadAll(fs, CoreFiles)
    case Exit(status) => Exit(status)
    case Text(sections) => Text("\n" + fileStructure + sections + Rule)
  }

  /** The text a file contributes to the context; empty when its read fails,
      which never reaches the context. */
  function ContentOf(fs: string -> ReadOutcome, path: string): string
  {
    var t := ReadFileContent(path, fs(path));
    if t.Text? then t.text else []
  }

  /** The section of one core file whose read does not fail. */
  function Section(fs: string -> ReadOutcome, file: CoreFile): string
  {
    Rule + file.title + "\n" + ContentOf(fs, file.path)
  }

  /** Reading a non-empty list whose reads all succeed gives the first file's
      section followed by the rest. */
  lemma ReadAllStep(fs: string -> ReadOutcome, files: seq<CoreFile>)
    requires files != []
    requires AllReadable(fs, files)
    ensures AllReadable(fs, files[1..])
    ensures ReadAll(fs, files).Text? && ReadAll(fs, files[1..]).Text?
    ensures ReadAll(fs, files).text == Section(fs, files[0]) + ReadAll(fs, files[1..]).text
  {
    AllReadableStep(fs, files);
  }

  /** When no read fails, the context is the file listing, the sections of the
      six core files in their fixed order, and a closing rule. */
  lemma ContextLayout(fs: string -> ReadOutcome, fileStructure: string)
    requires AllReadable(fs, CoreFiles)
    ensures ProjectContext(fs, fileStructure) == Text(
      "\n" + fileStructure
      + (Section(fs, CoreFiles[0]) + Section(fs, CoreFiles[1]) + Section(fs, CoreFiles[2])
         + Section(fs, CoreFiles[3]) + Section(fs, CoreFiles[4]) + Section(fs, CoreFiles[5]))
      + Rule)
  {
    var f := CoreFiles;
    ReadAllStep(fs, f);
    ReadAllStep(fs, f[1..]);
    ReadAllStep(fs, f[1..][1..]);
    ReadAllStep(fs, f[1..][1..][1..]);
    ReadAllStep(fs, f[1..][1..][1..][1..]);
    ReadAllStep(fs, f[1..][1..][1..][1..][1..]);
    var s0, s1, s2, s3, s4, s5 := Section(fs, f[0]), Section(fs, f[1]), Section(fs, f[2]),
      Section(fs, f[3]), Section(fs, f[4]), Section(fs, f[5]);
    assert ReadAll(fs, f[1..][1..][1..][1..][1..]).text == s5 + [];
    assert ReadAll(fs, f[1..][1..][1..][1..]).text == s4 + s5;
    assert ReadAll(fs, f[1..][1..][1..]).text == s3 + (s4 + s5);
    assert ReadAll(fs, f[1..][1..]).text == s2 + (s3 + (s4 + s5));
    assert ReadAll(fs, f[1..]).text == s1 + (s2 + (s3 + (s4 + s5)));
    assert ReadAll(fs, f).text == s0 + (s1 + (s2 + (s3 + (s4 + s5))));
    Flatten(s0, s1, s2, s3, s4, s5);
  }

  /** Six texts concatenated from the right equal them concatenated from the left. */
  lemma Flatten(s0: string, s1: string, s2: string, s3: string, s4: string, s5: string)
    ensures s0 + (s1 + (s2 + (s3 + (s4 + s5)))) == s0 + s1 + s2 + s3 + s4 + s5
  {
    Strings.Assoc(s3, s4, s5);
    var t3 := s3 + s4 + s5;
    Strings.Assoc(s2, s3 + s4, s5);
    Strings.Assoc(s2, s3, s4);
    var t2 := s2 + s3 + s4 + s5;
    assert s2 + t3 == t2;
    Strings.Assoc(s1, s2 + s3 + s4, s5);
    Strings.Assoc(s1, s2 + s3, s4);
    Strings.Assoc(s1, s2, s3);
    var t1 := s1 + s2 + s3 + s4 + s5;
    assert s1 + t2 == t1;
    Strings.Assoc(s0, s1 + s2 + s3 + s4, s5);
    Strings.Assoc(s0, s1 + s2 + s3, s4);
    Strings.Assoc(s0, s1 + s2, s3);
    Strings.Assoc(s0, s1, s2);
    assert s0 + t1 == s0 + s1 + s2 + s3 + s4 + s5;
  }
}
