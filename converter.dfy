/**
 * The file converter page: extension extraction, the upload queue and its
 * edits, the pending -> converting -> done progression of the simulated
 * conversion, and the format catalogue lookups.
 */
module Converter {
  import opened Options
  import opened Chars
  import opened Strings
  import opened Seqs

  // ---------------------------------------------------------------- extension

  /** `getFileExtension`: the lower-cased last piece of `name.split(".")`, or `""`. */
  function FileExtension(name: string): string
  {
    var last := Split(name, '.')[|Split(name, '.')| - 1];
    var lowered := LowerString(last);
    if lowered != "" then lowered else ""
  }

  /**
   * The extension is the lower-cased text after the last `.`; with no `.`
   * it is the whole lower-cased name; it is empty for an empty name or one
   * that ends in `.`.
   */
  lemma ExtensionIsAfterLastDot(name: string)
    ensures '.' !in FileExtension(name)
    ensures '.' !in name ==> FileExtension(name) == LowerString(name)
    ensures '.' in name ==>
      (exists k :: 0 <= k < |name| && name[k] == '.' && '.' !in name[k + 1..]
                   && FileExtension(name) == LowerString(name[k + 1..]))
    ensures name == "" || name[|name| - 1] == '.' ==> FileExtension(name) == ""
  {
    LastPiece(name, '.');
    var e := Split(name, '.')[|Split(name, '.')| - 1];
    LowerKeepsDots(e);
    if '.' in name {
      var k := |name| - |e| - 1;
      assert name[k + 1..] == e;
    }
  }

  /** Lower-casing neither adds nor removes a `.`. */
  lemma LowerKeepsDots(s: string)
    ensures '.' in LowerString(s) <==> '.' in s
  {
    var l := LowerString(s);
    if '.' in l {
      var i :| 0 <= i < |l| && l[i] == '.';
      assert s[i] == '.';
    }
    if '.' in s {
      var i :| 0 <= i < |s| && s[i] == '.';
      assert l[i] == '.';
    }
  }

  // ---------------------------------------------------------------- the queue

  datatype Status = Pending | Converting | Done | Error

  /**
   * One queued file. `sizeBytes` stands for the displayed size, whose
   * formatting is floating-point and is not part of this model.
   */
  datatype UploadedFile = UploadedFile(
    id: string,
    name: string,
    sizeBytes: nat,
    extension: string,
    targetFormat: string,
    status: Status,
    progress: int)

  /** A file the browser hands over: its name and size in bytes. */
  datatype FileInput = FileInput(name: string, size: nat)

  /** The entry `addFiles` makes for one new file. */
  function NewEntry(file: FileInput, id: string, target: string): (f: UploadedFile)
    ensures f.status == Pending && f.progress == 0 && f.targetFormat == target
    ensures f.extension == FileExtension(file.name) && f.name == file.name && f.id == id
  {
    UploadedFile(id, file.name, file.size, FileExtension(file.name), target, Pending, 0)
  }

  /** `prev.filter(f => f.id !== id)`. */
  function RemoveById(fs: seq<UploadedFile>, id: string): (r: seq<UploadedFile>)
    ensures |r| <= |fs|
    ensures forall k :: 0 <= k < |r| ==> r[k].id != id && r[k] in fs
    ensures forall f :: f in fs && f.id != id ==> f in r
  {
    if fs == [] then []
    else
      var init := RemoveById(fs[..|fs| - 1], id);
      var f := fs[|fs| - 1];
      if f.id != id then init + [f] else init
  }

  /** Removing an id no entry has changes nothing. */
  lemma {:induction false} RemoveAbsentId(fs: seq<UploadedFile>, id: string)
    requires forall k :: 0 <= k < |fs| ==> fs[k].id != id
    ensures RemoveById(fs, id) == fs
  {
    if fs != [] {
      var init := fs[..|fs| - 1];
      assert fs == init + [fs[|fs| - 1]];
      RemoveAbsentId(init, id);
      assert RemoveById(fs, id) == init + [fs[|fs| - 1]];
    }
  }

  /** Removal distributes over concatenation, so the survivors keep their order. */
  lemma {:induction false} RemoveByIdAppend(a: seq<UploadedFile>, b: seq<UploadedFile>, id: string)
    ensures RemoveById(a + b, id) == RemoveById(a, id) + RemoveById(b, id)
    decreases |b|
  {
    if b == [] {
      assert a + b == a;
    } else {
      assert (a + b)[..|a + b| - 1] == a + b[..|b| - 1];
      RemoveByIdAppend(a, b[..|b| - 1], id);
    }
  }

  /** `prev.map(f => f.id === id ? { ...f, targetFormat: format } : f)`. */
  function Retarget(fs: seq<UploadedFile>, id: string, format: string): (r: seq<UploadedFile>)
    ensures |r| == |fs|
    ensures forall k :: 0 <= k < |fs| ==>
      r[k] == if fs[k].id == id then fs[k].(targetFormat := format) else fs[k]
  {
    seq(|fs|, k requires 0 <= k < |fs| => if fs[k].id == id then fs[k].(targetFormat := format) else fs[k])
  }

  // ------------------------------------------------------ simulated conversion

  /** One `setFiles` of the simulated conversion, for the entries with this id. */
  datatype Step = Start(id: string) | Advance(id: string, percent: int) | Finish(id: string)

  /** The effect of one step on the queue. */
  function Apply(fs: seq<UploadedFile>, step: Step): (r: seq<UploadedFile>)
    ensures |r| == |fs|
  {
    seq(|fs|, k requires 0 <= k < |fs| =>
      if fs[k].id != step.id then fs[k]
      else match step
        case Start(_) => fs[k].(status := Converting, progress := 0)
        case Advance(_, p) => fs[k].(progress := p)
        case Finish(_) => fs[k].(status := Done, progress := 100))
  }

  /** The queue after a sequence of steps, applied in order. */
  function Replay(fs: seq<UploadedFile>, steps: seq<Step>): (r: seq<UploadedFile>)
    ensures |r| == |fs|
  {
    if steps == [] then fs else Apply(Replay(fs, steps[..|steps| - 1]), steps[|steps| - 1])
  }

  /** The progress updates `0, 10, ..., 10 * (n - 1)` of one file. */
  function Advances(id: string, n: nat): (r: seq<Step>)
    ensures |r| == n
    ensures forall k :: 0 <= k < n ==> r[k] == Advance(id, 10 * k)
  {
    seq(n, k requires 0 <= k < n => Advance(id, 10 * k))
  }

  /** Every step for one pending file: converting at 0, then 0, 10, ..., 100, then done at 100. */
  function StepsFor(id: string): seq<Step>
  {
    [Start(id)] + Advances(id, 11) + [Finish(id)]
  }

  /** The ids of the pending entries, in queue order. */
  function PendingIds(fs: seq<UploadedFile>): (ids: seq<string>)
    ensures |ids| <= |fs|
  {
    if fs == [] then []
    else
      var init := PendingIds(fs[..|fs| - 1]);
      if fs[|fs| - 1].status == Pending then init + [fs[|fs| - 1].id] else init
  }

  /** The steps for each pending id in turn. */
  function Plan(ids: seq<string>): seq<Step>
  {
    if ids == [] then [] else Plan(ids[..|ids| - 1]) + StepsFor(ids[|ids| - 1])
  }

  /** Every entry whose id is in `ids` done at 100, the others untouched. */
  function Converted(fs: seq<UploadedFile>, ids: set<string>): (r: seq<UploadedFile>)
    ensures |r| == |fs|
  {
    seq(|fs|, k requires 0 <= k < |fs| =>
      if fs[k].id in ids then fs[k].(status := Done, progress := 100) else fs[k])
  }

  lemma {:induction false} ReplayAppend(fs: seq<UploadedFile>, a: seq<Step>, b: seq<Step>)
    ensures Replay(fs, a + b) == Replay(Replay(fs, a), b)
    decreases |b|
  {
    if b == [] {
      assert a + b == a;
    } else {
      assert (a + b)[..|a + b| - 1] == a + b[..|b| - 1];
      ReplayAppend(fs, a, b[..|b| - 1]);
    }
  }

  /** Steps about one id touch only the status and progress of that id's entries. */
  lemma {:induction false} ReplayOneId(fs: seq<UploadedFile>, steps: seq<Step>, id: string)
    requires forall j :: 0 <= j < |steps| ==> steps[j].id == id
    ensures var r := Replay(fs, steps);
      forall k :: 0 <= k < |fs| ==>
        if fs[k].id == id then r[k] == fs[k].(status := r[k].status, progress := r[k].progress)
        else r[k] == fs[k]
  {
    if steps != [] {
      ReplayOneId(fs, steps[..|steps| - 1], id);
    }
  }

  /** Running all the steps of one file leaves exactly that id's entries done at 100. */
  lemma {:induction false} ReplayStepsFor(fs: seq<UploadedFile>, id: string)
    ensures Replay(fs, StepsFor(id)) == Converted(fs, {id})
  {
    var steps := StepsFor(id);
    var body := steps[..|steps| - 1];
    assert forall j :: 0 <= j < |body| ==> body[j].id == id;
    ReplayOneId(fs, body, id);
  }

  lemma ConvertedAdd(fs: seq<UploadedFile>, ids: set<string>, id: string)
    ensures Converted(Converted(fs, ids), {id}) == Converted(fs, ids + {id})
  {
  }

  /** Running the plan for a list of ids converts exactly the entries with those ids. */
  lemma {:induction false} ReplayPlan(fs: seq<UploadedFile>, ids: seq<string>)
    ensures Replay(fs, Plan(ids)) == Converted(fs, set i | i in ids)
  {
    if ids == [] {
      assert Converted(fs, {}) == fs;
    } else {
      var init := ids[..|ids| - 1];
      var last := ids[|ids| - 1];
      ReplayPlan(fs, init);
      ReplayAppend(fs, Plan(init), StepsFor(last));
      var done := set i | i in init;
      ReplayStepsFor(Converted(fs, done), last);
      ConvertedAdd(fs, done, last);
      assert (set i | i in ids) == done + {last};
    }
  }

  lemma {:induction false} PendingIdsComplete(fs: seq<UploadedFile>)
    ensures forall k :: 0 <= k < |fs| && fs[k].status == Pending ==> fs[k].id in PendingIds(fs)
    ensures forall i :: i in PendingIds(fs) ==> exists k :: 0 <= k < |fs| && fs[k].status == Pending && fs[k].id == i
  {
    if fs != [] {
      PendingIdsComplete(fs[..|fs| - 1]);
    }
  }

  /**
   * After the simulated conversion every entry that shared an id with a
   * pending file is done at 100, every other entry is as it was, and
   * nothing is left pending.
   */
  lemma {:induction false} ConversionOutcome(fs: seq<UploadedFile>)
    ensures var r := Replay(fs, Plan(PendingIds(fs)));
      && (forall k :: 0 <= k < |fs| ==>
           r[k] == if fs[k].id in PendingIds(fs) then fs[k].(status := Done, progress := 100) else fs[k])
      && (forall k :: 0 <= k < |fs| ==> r[k].status != Pending)
  {
    ReplayPlan(fs, PendingIds(fs));
    PendingIdsComplete(fs);
  }

  /** Replaying one more step is applying it to the replayed queue. */
  lemma ReplaySnoc(fs: seq<UploadedFile>, steps: seq<Step>, step: Step)
    ensures Replay(fs, steps + [step]) == Apply(Replay(fs, steps), step)
  {
    assert (steps + [step])[..|steps|] == steps;
  }

  lemma AdvancesSnoc(id: string, n: nat)
    ensures Advances(id, n) + [Advance(id, 10 * n)] == Advances(id, n + 1)
  {
  }

  lemma StepsForAppend(before: seq<Step>, id: string)
    ensures before + [Start(id)] + Advances(id, 11) + [Finish(id)] == before + StepsFor(id)
  {
  }

  /** The plan for a longer prefix of the queue extends the plan for the shorter one. */
  lemma PlanOfPrefix(fs: seq<UploadedFile>, n: nat)
    requires n < |fs|
    ensures Plan(PendingIds(fs[..n + 1])) ==
      Plan(PendingIds(fs[..n])) + (if fs[n].status == Pending then StepsFor(fs[n].id) else [])
  {
    assert fs[..n + 1][..n] == fs[..n];
    var ids := PendingIds(fs[..n]);
    if fs[n].status == Pending {
      assert (ids + [fs[n].id])[..|ids|] == ids;
    }
  }

  // ------------------------------------------------------------- the button

  /** `files.filter(f => f.status === "pending").length`, the count in the button label. */
  function PendingCount(fs: seq<UploadedFile>): nat
  {
    |PendingIds(fs)|
  }

  /** `!files.some(f => f.status === "pending")`. */
  predicate ConvertDisabled(fs: seq<UploadedFile>)
  {
    !exists k :: 0 <= k < |fs| && fs[k].status == Pending
  }

  /** The button is disabled exactly when its label counts no pending file. */
  lemma ConvertDisabledIffNoneCounted(fs: seq<UploadedFile>)
    ensures ConvertDisabled(fs) <==> PendingCount(fs) == 0
  {
    PendingIdsComplete(fs);
    if PendingCount(fs) > 0 {
      assert PendingIds(fs)[0] in PendingIds(fs);
    }
  }

  // --------------------------------------------------------------- the page

  class ConverterPage {
    var files: seq<UploadedFile>
    var globalTargetFormat: string

    constructor ()
      ensures files == [] && globalTargetFormat == "pdf"
    {
      files := [];
      globalTargetFormat := "pdf";
    }

    /**
     * `addFiles`. The ids are random in the page and are arguments here;
     * the entries already queued stay first, in order, and one pending
     * entry follows for each new file.
     */
    method AddFiles(newFiles: seq<FileInput>, ids: seq<string>)
      requires |ids| == |newFiles|
      modifies this
      ensures globalTargetFormat == old(globalTargetFormat)
      ensures |files| == |old(files)| + |newFiles|
      ensures files[..|old(files)|] == old(files)
      ensures forall j :: 0 <= j < |newFiles| ==>
        files[|old(files)| + j] == NewEntry(newFiles[j], ids[j], globalTargetFormat)
    {
      var target := globalTargetFormat;
      var added := seq(|newFiles|, j requires 0 <= j < |newFiles| => NewEntry(newFiles[j], ids[j], target));
      files := files + added;
    }

    /** `removeFile`. */
    method RemoveFile(id: string)
      modifies this
      ensures globalTargetFormat == old(globalTargetFormat)
      ensures files == RemoveById(old(files), id)
    {
      files := RemoveById(files, id);
    }

    /** `updateFileFormat`. */
    method UpdateFileFormat(id: string, format: string)
      modifies this
      ensures globalTargetFormat == old(globalTargetFormat)
      ensures files == Retarget(old(files), id, format)
    {
      files := Retarget(files, id, format);
    }

    /**
     * `simulateConversion`, without its timer. It walks the queue as it was
     * when the button was pressed; for each entry that was pending it
     * updates every entry with that id: converting at 0, progress 0, 10,
     * ..., 100, then done at 100. The updates are returned in order.
     */
    method SimulateConversion() returns (steps: seq<Step>)
      modifies this
      ensures globalTargetFormat == old(globalTargetFormat)
      ensures steps == Plan(PendingIds(old(files)))
      ensures files == Replay(old(files), steps)
    {
      var snapshot := files;
      steps := [];
      var n := 0;
      while n < |snapshot|
        invariant 0 <= n <= |snapshot|
        invariant globalTargetFormat == old(globalTargetFormat)
        invariant steps == Plan(PendingIds(snapshot[..n]))
        invariant files == Replay(snapshot, steps)
      {
        var file := snapshot[n];
        PlanOfPrefix(snapshot, n);
        if file.status == Pending {
          steps := ConvertOne(snapshot, steps, file.id);
        }
        n := n + 1;
      }
      assert snapshot[..n] == snapshot;
    }

    /**
     * The body of the conversion loop for one pending entry: converting at
     * 0, then the progress loop from 0 to 100 in steps of 10, then done.
     */
    method ConvertOne(ghost snapshot: seq<UploadedFile>, before: seq<Step>, id: string) returns (steps: seq<Step>)
      requires files == Replay(snapshot, before)
      modifies this
      ensures globalTargetFormat == old(globalTargetFormat)
      ensures steps == before + StepsFor(id)
      ensures files == Replay(snapshot, steps)
    {
      ReplaySnoc(snapshot, before, Start(id));
      files := Apply(files, Start(id));
      steps := before + [Start(id)];
      var i := 0;
      ghost var updates: nat := 0;
      while i <= 100
        invariant i == 10 * updates && updates <= 11
        invariant globalTargetFormat == old(globalTargetFormat)
        invariant steps == before + [Start(id)] + Advances(id, updates)
        invariant files == Replay(snapshot, steps)
      {
        ReplaySnoc(snapshot, steps, Advance(id, i));
        files := Apply(files, Advance(id, i));
        steps := steps + [Advance(id, i)];
        AdvancesSnoc(id, updates);
        i := i + 10;
        updates := updates + 1;
      }
      ReplaySnoc(snapshot, steps, Finish(id));
      files := Apply(files, Finish(id));
      steps := steps + [Finish(id)];
      StepsForAppend(before, id);
    }
  }

  // ------------------------------------------------------- format catalogue

  datatype Icon = FileTextIcon | FileTypeIcon | ImageIcon

  datatype Format = Format(id: string, name: string, extension: string, icon: Icon, color: string, accepts: seq<string>)

  /** The page's `formats` table. */
  const Formats: seq<Format> := [
    Format("pdf", "PDF", ".pdf", FileTextIcon, "bg-red-500/20 text-red-400",
      ["docx", "doc", "png", "jpg", "jpeg", "txt", "html"]),
    Format("docx", "Word", ".docx", FileTypeIcon, "bg-blue-500/20 text-blue-400",
      ["pdf", "txt", "html", "rtf"]),
    Format("png", "PNG", ".png", ImageIcon, "bg-green-500/20 text-green-400",
      ["jpg", "jpeg", "webp", "gif", "bmp", "svg", "pdf"]),
    Format("jpg", "JPEG", ".jpg", ImageIcon, "bg-yellow-500/20 text-yellow-400",
      ["png", "webp", "gif", "bmp", "svg", "pdf"]),
    Format("webp", "WebP", ".webp", ImageIcon, "bg-purple-500/20 text-purple-400",
      ["png", "jpg", "jpeg", "gif", "bmp"]),
    Format("svg", "SVG", ".svg", ImageIcon, "bg-pink-500/20 text-pink-400",
      ["png", "jpg", "jpeg"]),
    Format("txt", "TXT", ".txt", FileTextIcon, "bg-gray-500/20 text-gray-400",
      ["pdf", "docx", "doc", "html"]),
    Format("html", "HTML", ".html", FileTypeIcon, "bg-orange-500/20 text-orange-400",
      ["pdf", "docx", "txt", "md"])
  ]

  const DefaultColor: string := "bg-gray-500/20 text-gray-400"
  const DefaultIcon: Icon := FileTextIcon

  /** `formats.find(f => f.id === formatId)`. */
  function FindFormat(table: seq<Format>, formatId: string): Option<Format>
  {
    FindBy(table, (f: Format) => f.id, formatId)
  }

  /** `getFormatColor`: the catalogue colour, or the grey default for an unknown id. */
  function FormatColor(formatId: string): (color: string)
    ensures FindFormat(Formats, formatId).None? ==> color == DefaultColor
    ensures FindFormat(Formats, formatId).Some? ==> color == FindFormat(Formats, formatId).value.color
  {
    var found := FindFormat(Formats, formatId);
    if found.Some? && found.value.color != "" then found.value.color
    else
      FormatsColored();
      DefaultColor
  }

  /** Every catalogue entry has a colour. */
  lemma FormatsColored()
    ensures forall f :: f in Formats ==> f.color != ""
  {
  }

  /** `getFormatIcon`: the catalogue icon, or the text-file icon for an unknown id. */
  function FormatIcon(formatId: string): (icon: Icon)
    ensures FindFormat(Formats, formatId).None? ==> icon == DefaultIcon
    ensures FindFormat(Formats, formatId).Some? ==> icon == FindFormat(Formats, formatId).value.icon
  {
    var found := FindFormat(Formats, formatId);
    if found.Some? then found.value.icon else DefaultIcon
  }
}
