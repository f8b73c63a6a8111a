/** The older, self-contained snapshot of the program (main.go): its own
    sanitiser, the naming of the bundle directory and of each file, the
    goroutine that downloads one file, and `downloadOrder`, which launches one
    goroutine per download type and waits for all of them. */
module Legacy {
  import opened Common
  import opened GoStrings
  import opened HumbleBundle
  import opened Downloader

  /** The characters the older sanitiser removes. */
  predicate IsIllegalOld(c: char) {
    c == '/' || c == ':' || c == '!'
  }

  /** What the older chain does to one character. */
  function SanitizedCharOld(c: char): (d: char)
    ensures !IsIllegalOld(d)
    ensures !IsIllegalOld(c) ==> d == c
  {
    match c
    case '/' => '_'
    case ':' => ';'
    case '!' => 'l'
    case _ => c
  }

  /** The older `removeIllegalCharacters`: `/` becomes `_`, `:` becomes `;`
      and `!` becomes `l`, each in place. A `?` is kept. */
  function RemoveIllegalCharactersOld(filename: string): (r: string)
    ensures |r| == |filename|
    ensures forall i :: 0 <= i < |r| ==> r[i] == SanitizedCharOld(filename[i])
    ensures forall i :: 0 <= i < |r| ==> !IsIllegalOld(r[i])
  {
    var slashes := ReplaceAll(filename, '/', '_');
    var colons := ReplaceAll(slashes, ':', ';');
    ReplaceAll(colons, '!', 'l')
  }

  /** The older sanitiser is idempotent too. */
  lemma RemoveIllegalCharactersOldIdempotent(filename: string)
    ensures RemoveIllegalCharactersOld(RemoveIllegalCharactersOld(filename)) == RemoveIllegalCharactersOld(filename)
  {
  }

  /** The bundle's name: its human name, or its machine name when the human
      name is empty. */
  function BundleName(product: ProductInfo): (name: string)
    ensures product.humanName != "" ==> name == product.humanName
    ensures product.humanName == "" ==> name == product.machineName
    ensures name == "" <==> product.humanName == "" && product.machineName == ""
  {
    if product.humanName == "" then product.machineName else product.humanName
  }

  /** `outputDir`: the sanitised bundle name joined to the parent directory.
      The sanitised name has no separator, so a non-empty one adds a single
      entry below `parentDir`; an empty one leaves `parentDir` itself. */
  function OutputDir(parentDir: string, product: ProductInfo): (dir: string)
    ensures var entry := RemoveIllegalCharactersOld(BundleName(product));
      && '/' !in entry
      && (parentDir != "" && entry != "" ==> dir == parentDir + "/" + entry)
      && (entry == "" ==> dir == parentDir)
      && (parentDir == "" ==> dir == entry)
  {
    Join(parentDir, RemoveIllegalCharactersOld(BundleName(product)))
  }

  /** The name a goroutine is started with: the sub-product's human name, a
      dot, and the lower-cased format name without its leading dot. */
  function TaskFileName(prod: SubProduct, dt: DownloadType): (name: string)
    ensures HasPrefix(name, prod.humanName + ".")
    ensures name[|prod.humanName| + 1..] == FileExtension(dt)
  {
    var name := prod.humanName + "." + FileExtension(dt);
    assert name[..|prod.humanName| + 1] == prod.humanName + ".";
    name
  }

  const Supplement := ".supplement"
  const SupplementZip := "_supplement.zip"
  const Video := ".download"
  const VideoZip := "_video.zip"

  /** The clean-up at the start of the goroutine: sanitise, then rewrite only
      the FIRST `.supplement` and then only the first `.download`.
      The cleaned name has none of the older sanitiser's characters; in
      particular it has no separator, so it adds no directory level. */
  function CleanFileName(filename: string): (name: string)
    ensures forall c :: c in name ==> !IsIllegalOld(c)
  {
    var sanitised := RemoveIllegalCharactersOld(filename);
    var supplement := ReplaceFirst(sanitised, Supplement, SupplementZip);
    ReplaceFirst(supplement, Video, VideoZip)
  }

  /** A name free of the older sanitiser's characters and of both suffixes is
      used as it is. */
  lemma {:induction false} CleanFileNameKeepsPlainNames(filename: string)
    requires forall i :: 0 <= i < |filename| ==> !IsIllegalOld(filename[i])
    requires forall j: nat :: !OccursAt(filename, Supplement, j)
    requires forall j: nat :: !OccursAt(filename, Video, j)
    ensures CleanFileName(filename) == filename
  {
    assert RemoveIllegalCharactersOld(filename) == filename;
    ReplaceFirstAbsent(filename, Supplement, SupplementZip);
    ReplaceFirstAbsent(filename, Video, VideoZip);
  }

  /** A supplement archive: `<base>.supplement` is saved as
      `<base>_supplement.zip` (for a base name without dots). */
  lemma {:induction false} CleanFileNameSupplement(base: string)
    requires forall i :: 0 <= i < |base| ==> !IsIllegalOld(base[i]) && base[i] != '.'
    ensures CleanFileName(base + Supplement) == base + SupplementZip
  {
    SupplementRewritten(base);
    NoVideoAfterSupplement(base);
    ReplaceFirstAbsent(base + SupplementZip, Video, VideoZip);
  }

  lemma SupplementRewritten(base: string)
    requires forall i :: 0 <= i < |base| ==> !IsIllegalOld(base[i]) && base[i] != '.'
    ensures ReplaceFirst(RemoveIllegalCharactersOld(base + Supplement), Supplement, SupplementZip)
         == base + SupplementZip
  {
    var s := base + Supplement;
    assert RemoveIllegalCharactersOld(s) == s;
    assert IsFirstOccurrence(s, Supplement, |base|) by {
      assert s[|base|..|base| + |Supplement|] == Supplement;
      forall j: nat | j < |base| ensures !OccursAt(s, Supplement, j) {
        assert s[j..j + |Supplement|][0] == base[j] != Supplement[0];
      }
    }
    ReplaceFirstAt(s, Supplement, SupplementZip, |base|);
    assert s[..|base|] == base && s[|base| + |Supplement|..] == [];
  }

  lemma NoVideoAfterSupplement(base: string)
    requires forall i :: 0 <= i < |base| ==> base[i] != '.'
    ensures forall j: nat :: !OccursAt(base + SupplementZip, Video, j)
  {
    var t := base + SupplementZip;
    forall j: nat ensures !OccursAt(t, Video, j) {
      if j + |Video| <= |t| {
        if j < |base| {
          assert t[j..j + |Video|][0] == base[j] != Video[0];
        } else {
          assert j - |base| <= 6;
          assert t[j..j + |Video|][0] == SupplementZip[j - |base|] != Video[0];
        }
      }
    }
  }

  /** One goroutine's work: the name it was started with, the URL of the
      format and the format itself. */
  datatype Task = Task(filename: string, url: string, dt: DownloadType)

  /** How a goroutine ends. Nothing is returned to `downloadOrder`; each end
      is a log line. */
  datatype TaskEnd =
    | DownloadFailed
    | LastModifiedFailed
    | StatusFailed(status: int)
    | CreateFailed
    | CopyFailed
    | Finished(checksumOk: bool)

  /** Whether the "already downloaded" line was logged, how the goroutine
      ended, and the filesystem it left. */
  datatype TaskResult = TaskResult(skipLogged: bool, end: TaskEnd, disk: Disk)

  /** What the network and the filesystem do for one goroutine. */
  datatype TaskWorld = TaskWorld(get: Get, faults: Faults)

  function TaskPath(outputDir: string, task: Task): string {
    Join(outputDir, CleanFileName(task.filename))
  }

  /** The goroutine body. Its skip check only logs: the file is fetched and
      written whether or not it was already valid. The failures come in the
      order transport, Last-Modified, status, create, copy, and each ends the
      goroutine; a checksum mismatch after the copy is only logged. */
  function DownloadTask(outputDir: string, task: Task, world: TaskWorld, lib: Library, disk: Disk): (r: TaskResult)
    ensures r.skipLogged <==> AlreadyValid(task.dt, TaskPath(outputDir, task), lib, disk)
    ensures world.get.GetFailed? <==> r.end == DownloadFailed
    ensures world.get.GetFailed? ==> r.disk == disk
    ensures world.get.Got? ==>
      var t := Fetch(TaskPath(outputDir, task), world.get.resp, lib, world.faults, disk);
      && r.disk == t.disk
      && (t.outcome.LastModifiedBad? <==> r.end == LastModifiedFailed)
      && (t.outcome.StatusBad? <==> r.end == StatusFailed(world.get.resp.status))
      && (t.outcome.CreateBad? <==> r.end == CreateFailed)
      && (t.outcome.CopyBad? <==> r.end == CopyFailed)
      && (t.outcome.Written? ==>
            r.end == Finished(IsValidChecksum(task.dt, t.outcome.data, lib.digests)))
      && (r.end.Finished? ==> t.outcome.Written?)
  {
    var path := Join(outputDir, CleanFileName(task.filename));
    var skipLogged := path in disk.files && IsValidChecksum(task.dt, disk.files[path], lib.digests);
    match world.get
    case GetFailed => TaskResult(skipLogged, DownloadFailed, disk)
    case Got(resp) =>
      var t := Fetch(path, resp, lib, world.faults, disk);
      match t.outcome
      case LastModifiedBad => TaskResult(skipLogged, LastModifiedFailed, t.disk)
      case StatusBad(status) => TaskResult(skipLogged, StatusFailed(status), t.disk)
      case CreateBad => TaskResult(skipLogged, CreateFailed, t.disk)
      case CopyBad => TaskResult(skipLogged, CopyFailed, t.disk)
      case Written(_) =>
        TaskResult(skipLogged, Finished(IsValidChecksum(task.dt, FileContents(t.disk, path), lib.digests)), t.disk)
  }

  /** The skip check has no effect: the goroutine ends the same way whether
      or not the destination already existed, and once it has written the
      file it leaves the same filesystem. */
  lemma DownloadTaskIgnoresExistingFile(outputDir: string, task: Task, world: TaskWorld, lib: Library, disk: Disk)
    ensures var path := TaskPath(outputDir, task);
      var r1 := DownloadTask(outputDir, task, world, lib, disk);
      var r2 := DownloadTask(outputDir, task, world, lib, disk.(files := disk.files - {path}));
      && r1.end == r2.end
      && (r1.end.Finished? || r1.end == CopyFailed ==> r1.disk == r2.disk)
  {
  }

  /** Where `syncFile` keeps an already valid file, the goroutine truncates it
      and, if the copy breaks, leaves only the partial body behind. */
  lemma DownloadTaskDestroysValidFile(outputDir: string, task: Task, world: TaskWorld,
                                      lib: Library, disk: Disk)
    requires world.get.Got? && world.get.resp.body.Broken?
    requires lib.parseTime(world.get.resp.lastModified).Some?
    requires IsSuccessStatus(world.get.resp.status) && !world.faults.createFails
    requires world.get.resp.contentDisposition == ""
    requires AlreadyValid(task.dt, TaskPath(outputDir, task), lib, disk)
    ensures var r := DownloadTask(outputDir, task, world, lib, disk);
      r.skipLogged && r.end == CopyFailed
      && r.disk.files[TaskPath(outputDir, task)] == world.get.resp.body.partial
    ensures SyncFile(outputDir, CleanFileName(task.filename), task.url, task.dt, world.get, lib, world.faults, disk)
         == SyncResult(None, disk)
  {
  }

  /** `sync.WaitGroup`, reduced to its counter. */
  class WaitGroup {
    var counter: nat

    constructor ()
      ensures counter == 0
    {
      counter := 0;
    }

    method Add(delta: nat)
      modifies this
      ensures counter == old(counter) + delta
    {
      counter := counter + delta;
    }

    /** A negative counter makes Go panic; callers must never get there. */
    method Done()
      requires counter > 0
      modifies this
      ensures counter == old(counter) - 1
    {
      counter := counter - 1;
    }

    /** `Wait` returns once the counter is zero. Run sequentially, a call is
        correct exactly when every `Add` has been matched by a `Done`. */
    method Wait()
      requires counter == 0
    {
    }
  }

  /** The task started for one format of a sub-product. */
  function TaskFor(prod: SubProduct, dt: DownloadType): Task {
    Task(TaskFileName(prod, dt), dt.web, dt)
  }

  /** The tasks the innermost loop starts for the formats `dts`, in order. */
  function TypeTasks(prod: SubProduct, dts: seq<DownloadType>): (tasks: seq<Task>)
    ensures |tasks| == |dts|
    ensures forall k :: 0 <= k < |dts| ==> tasks[k] == TaskFor(prod, dts[k])
  {
    if dts == [] then []
    else TypeTasks(prod, dts[..|dts| - 1]) + [TaskFor(prod, dts[|dts| - 1])]
  }

  /** The tasks started for the download groups `ds` of `prod`, in order. */
  function DownloadTasks(prod: SubProduct, ds: seq<Download>): seq<Task> {
    if ds == [] then []
    else DownloadTasks(prod, ds[..|ds| - 1]) + TypeTasks(prod, ds[|ds| - 1].downloadTypes)
  }

  /** The tasks started for the sub-products `ps`, in order. */
  function ProductTasks(ps: seq<SubProduct>): seq<Task> {
    if ps == [] then []
    else ProductTasks(ps[..|ps| - 1]) + DownloadTasks(ps[|ps| - 1], ps[|ps| - 1].downloads)
  }

  /** One more round of the middle loop appends the tasks of group `j`. */
  lemma DownloadTasksStep(prod: SubProduct, ds: seq<Download>, j: nat)
    requires j < |ds|
    ensures DownloadTasks(prod, ds[..j + 1]) == DownloadTasks(prod, ds[..j]) + TypeTasks(prod, ds[j].downloadTypes)
  {
    assert ds[..j + 1][..j] == ds[..j];
  }

  /** One more round of the outer loop appends the tasks of sub-product `i`. */
  lemma ProductTasksStep(ps: seq<SubProduct>, i: nat)
    requires i < |ps|
    ensures ProductTasks(ps[..i + 1]) == ProductTasks(ps[..i]) + DownloadTasks(ps[i], ps[i].downloads)
  {
    assert ps[..i + 1][..i] == ps[..i];
  }

  /** The number of formats in the groups `ds`. */
  function DownloadTypeCount(ds: seq<Download>): nat {
    if ds == [] then 0 else |ds[0].downloadTypes| + DownloadTypeCount(ds[1..])
  }

  /** The number of formats, summed over all sub-products and their groups. */
  function TypeCount(ps: seq<SubProduct>): nat {
    if ps == [] then 0 else DownloadTypeCount(ps[0].downloads) + TypeCount(ps[1..])
  }

  lemma {:induction false} DownloadTypeCountSnoc(ds: seq<Download>, d: Download)
    ensures DownloadTypeCount(ds + [d]) == DownloadTypeCount(ds) + |d.downloadTypes|
  {
    if ds != [] {
      assert (ds + [d])[1..] == ds[1..] + [d];
      DownloadTypeCountSnoc(ds[1..], d);
    }
  }

  lemma {:induction false} TypeCountSnoc(ps: seq<SubProduct>, p: SubProduct)
    ensures TypeCount(ps + [p]) == TypeCount(ps) + DownloadTypeCount(p.downloads)
  {
    if ps != [] {
      assert (ps + [p])[1..] == ps[1..] + [p];
      TypeCountSnoc(ps[1..], p);
    }
  }

  /** One task per format of a group. */
  lemma {:induction false} DownloadTasksCount(prod: SubProduct, ds: seq<Download>)
    ensures |DownloadTasks(prod, ds)| == DownloadTypeCount(ds)
  {
    if ds != [] {
      var init := ds[..|ds| - 1];
      DownloadTasksCount(prod, init);
      DownloadTypeCountSnoc(init, ds[|ds| - 1]);
      assert init + [ds[|ds| - 1]] == ds;
    }
  }

  /** Exactly one task is started per download type, summed over all
      sub-products and their download groups. */
  lemma {:induction false} ProductTasksCount(ps: seq<SubProduct>)
    ensures |ProductTasks(ps)| == TypeCount(ps)
  {
    if ps != [] {
      var init := ps[..|ps| - 1];
      var last := ps[|ps| - 1];
      ProductTasksCount(init);
      DownloadTasksCount(last, last.downloads);
      TypeCountSnoc(init, last);
      assert init + [last] == ps;
    }
  }

  /** The filesystem after the goroutines whose results are `results`. */
  function LastDisk(results: seq<TaskResult>, disk: Disk): Disk {
    if results == [] then disk else results[|results| - 1].disk
  }

  /** The tasks run one after another, in the order they were started, each
      on the filesystem the previous one left (`world(k)` is what the network
      and filesystem do for the k-th task). */
  function RunTasks(outputDir: string, tasks: seq<Task>, world: nat -> TaskWorld, lib: Library, disk: Disk): (results: seq<TaskResult>)
    ensures |results| == |tasks|
  {
    if tasks == [] then []
    else
      var before := RunTasks(outputDir, tasks[..|tasks| - 1], world, lib, disk);
      before + [DownloadTask(outputDir, tasks[|tasks| - 1], world(|tasks| - 1), lib, LastDisk(before, disk))]
  }

  /** Task `k` runs with `world(k)` on the filesystem task `k - 1` left, and
      the first on the filesystem `downloadOrder` started with. */
  lemma {:induction false} RunTasksInOrder(outputDir: string, tasks: seq<Task>, world: nat -> TaskWorld,
                                           lib: Library, disk: Disk, k: nat)
    requires k < |tasks|
    ensures var results := RunTasks(outputDir, tasks, world, lib, disk);
      results[k] == DownloadTask(outputDir, tasks[k], world(k), lib, if k == 0 then disk else results[k - 1].disk)
    decreases |tasks|
  {
    var n := |tasks| - 1;
    var before := RunTasks(outputDir, tasks[..n], world, lib, disk);
    var results := RunTasks(outputDir, tasks, world, lib, disk);
    assert results == before + [DownloadTask(outputDir, tasks[n], world(n), lib, LastDisk(before, disk))];
    if k < n {
      RunTasksInOrder(outputDir, tasks[..n], world, lib, disk, k);
      assert tasks[..n][k] == tasks[k];
      assert results[k] == before[k];
      if k > 0 {
        assert results[k - 1] == before[k - 1];
      }
    } else if n > 0 {
      assert results[n - 1] == before[n - 1];
    }
  }

  /** Why `downloadOrder` ends the process. */
  datatype Fatal = OrderQueryFailed(cause: ApiError) | MkdirFailed(dir: string)

  /** `downloadOrder`. A transport failure, a status other than 200 or a
      decoding error ends the process (a read error is ignored), as does
      failing to create the bundle directory. Otherwise one task is started
      per download type, the WaitGroup counting each, and `Wait` is reached
      only after every task has called `Done`. Goroutines are run in the
      order they were started. */
  method DownloadOrder(parentDir: string, resp: ApiResponse<Order>, mkdirFails: bool,
                       world: nat -> TaskWorld, lib: Library, disk: Disk)
    returns (fatal: Option<Fatal>, tasks: seq<Task>, results: seq<TaskResult>, finalDisk: Disk)
    ensures resp.TransportFailed? ==> fatal == Some(OrderQueryFailed(TransportError))
    ensures resp.Received? && resp.status != StatusOK ==>
      fatal == Some(OrderQueryFailed(BadStatus(resp.status)))
    ensures resp.Received? && resp.status == StatusOK && !resp.decodeOk ==>
      fatal == Some(OrderQueryFailed(UnmarshalError))
    ensures resp.Received? && resp.status == StatusOK && resp.decodeOk && mkdirFails ==>
      fatal == Some(MkdirFailed(OutputDir(parentDir, resp.decoded.product)))
    ensures fatal.Some? ==> tasks == [] && results == [] && finalDisk == disk
    ensures fatal.None? <==> resp.Received? && resp.status == StatusOK && resp.decodeOk && !mkdirFails
    ensures fatal.None? ==>
      var outputDir := OutputDir(parentDir, resp.decoded.product);
      && tasks == ProductTasks(resp.decoded.products)
      && |tasks| == TypeCount(resp.decoded.products)
      && results == RunTasks(outputDir, tasks, world, lib, disk)
      && finalDisk == LastDisk(results, disk)
  {
    tasks, results, finalDisk := [], [], disk;
    if resp.TransportFailed? {
      return Some(OrderQueryFailed(TransportError)), tasks, results, finalDisk;
    }
    if resp.status != StatusOK {
      return Some(OrderQueryFailed(BadStatus(resp.status))), tasks, results, finalDisk;
    }
    if !resp.decodeOk {
      return Some(OrderQueryFailed(UnmarshalError)), tasks, results, finalDisk;
    }
    var order := resp.decoded;
    var outputDir := OutputDir(parentDir, order.product);
    if mkdirFails {
      return Some(MkdirFailed(outputDir)), tasks, results, finalDisk;
    }

    var group := new WaitGroup();
    tasks := StartProducts(order.products, group);
    ProductTasksCount(order.products);
    results, finalDisk := RunAll(outputDir, tasks, world, lib, disk, group);
    group.Wait();
    fatal := None;
  }

  /** The innermost loop: one task, and one `Add(1)`, per format. */
  method StartTypes(prod: SubProduct, dts: seq<DownloadType>, group: WaitGroup) returns (started: seq<Task>)
    modifies group
    ensures started == TypeTasks(prod, dts)
    ensures group.counter == old(group.counter) + |started|
  {
    started := [];
    var x := 0;
    while x < |dts|
      invariant 0 <= x <= |dts|
      invariant started == TypeTasks(prod, dts[..x])
      invariant group.counter == old(group.counter) + |started|
    {
      var downloadType := dts[x];
      group.Add(1);
      started := started + [TaskFor(prod, downloadType)];
      assert dts[..x + 1][..x] == dts[..x];
      x := x + 1;
    }
    assert dts[..x] == dts;
  }

  /** The middle loop, over the download groups of one sub-product. */
  method StartDownloads(prod: SubProduct, group: WaitGroup) returns (started: seq<Task>)
    modifies group
    ensures started == DownloadTasks(prod, prod.downloads)
    ensures group.counter == old(group.counter) + |started|
  {
    started := [];
    var j := 0;
    while j < |prod.downloads|
      invariant 0 <= j <= |prod.downloads|
      invariant started == DownloadTasks(prod, prod.downloads[..j])
      invariant group.counter == old(group.counter) + |started|
    {
      var download := prod.downloads[j];
      var more := StartTypes(prod, download.downloadTypes, group);
      started := started + more;
      DownloadTasksStep(prod, prod.downloads, j);
      j := j + 1;
    }
    assert prod.downloads[..j] == prod.downloads;
  }

  /** The outer loop, over the sub-products of the order. */
  method StartProducts(products: seq<SubProduct>, group: WaitGroup) returns (started: seq<Task>)
    modifies group
    ensures started == ProductTasks(products)
    ensures group.counter == old(group.counter) + |started|
  {
    started := [];
    var i := 0;
    while i < |products|
      invariant 0 <= i <= |products|
      invariant started == ProductTasks(products[..i])
      invariant group.counter == old(group.counter) + |started|
    {
      var prod := products[i];
      var more := StartDownloads(prod, group);
      started := started + more;
      ProductTasksStep(products, i);
      i := i + 1;
    }
    assert products[..i] == products;
  }

  /** The goroutines, run one after another; each ends with `Done`, as its
      deferred call guarantees on every return path. */
  method RunAll(outputDir: string, tasks: seq<Task>, world: nat -> TaskWorld, lib: Library, disk: Disk,
                group: WaitGroup)
    returns (results: seq<TaskResult>, finalDisk: Disk)
    requires group.counter == |tasks|
    modifies group
    ensures group.counter == 0
    ensures results == RunTasks(outputDir, tasks, world, lib, disk)
    ensures finalDisk == LastDisk(results, disk)
  {
    results, finalDisk := [], disk;
    var k := 0;
    while k < |tasks|
      invariant 0 <= k <= |tasks|
      invariant results == RunTasks(outputDir, tasks[..k], world, lib, disk)
      invariant finalDisk == LastDisk(results, disk)
      invariant group.counter == |tasks| - k
    {
      var result := DownloadTask(outputDir, tasks[k], world(k), lib, finalDisk);
      results := results + [result];
      finalDisk := result.disk;
      group.Done();
      assert tasks[..k + 1][..k] == tasks[..k];
      k := k + 1;
    }
    assert tasks[..k] == tasks;
  }

  /** `getOrderList`: any failure of the query, including a decoding error,
      ends the process; otherwise every order's key, in order. */
  method GetOrderList(resp: ApiResponse<seq<OrderKey>>) returns (r: Call<seq<string>>)
    ensures resp.TransportFailed? ==> r == Exit(TransportError)
    ensures resp.Received? && resp.status != StatusOK ==> r == Exit(BadStatus(resp.status))
    ensures resp.Received? && resp.status == StatusOK && !resp.decodeOk ==> r == Exit(UnmarshalError)
    ensures resp.Received? && resp.status == StatusOK && resp.decodeOk ==>
      && r.Return? && r.err == None
      && |r.value| == |resp.decoded|
      && forall i :: 0 <= i < |resp.decoded| ==> r.value[i] == resp.decoded[i].gamekey
  {
    if resp.TransportFailed? {
      return Exit(TransportError);
    }
    if resp.status != StatusOK {
      return Exit(BadStatus(resp.status));
    }
    if !resp.decodeOk {
      return Exit(UnmarshalError);
    }
    var keys := CollectKeys(resp.decoded);
    return Return(keys, None);
  }
}
