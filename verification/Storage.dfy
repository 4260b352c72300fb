/** The files the engine has open, and the ones still closed on disk
    (src/storage.rs). */
module Storage {
  import opened Bytes
  import opened Outcomes
  import opened SlottedPages
  import opened PageFiles
  import opened ClockSweep
  import opened PoolModel

  /** File names inside the database directory. */
  type Path = Bytes

  const CATALOG_PATH: Path := [99, 97, 116, 97, 108, 111, 103, 46, 100, 98]
  const CATALOG_FILE := FileId(0)

  /** File ids are u32; handing out the last one overflows the counter. */
  const MAX_FILE_ID: nat := 0xFFFF_FFFF

  /** A file the engine wrote, or one it will refuse to open. */
  ghost predicate ImageOk(bytes: Bytes) {
    OpenBytes(bytes).Ok? ==> LayoutOk(OpenBytes(bytes).value)
  }

  /** A file as its footer describes it, the magic number not looked at. */
  function Unchecked(bytes: Bytes): PageFile {
    if |bytes| < FOOTER_SIZE then FreshFile() else PageFile(bytes, FromBE(LastFooter(bytes)[8..]))
  }

  lemma OpenIsUnchecked(bytes: Bytes)
    ensures OpenBytes(bytes).Ok? ==> OpenBytes(bytes) == Ok(Unchecked(bytes))
  {
  }

  /** Whatever stands where the magic number should be, the page count is the last 8 bytes. */
  lemma UncheckedExactly(bytes: Bytes)
    ensures |bytes| >= 16 ==> Unchecked(bytes) == PageFile(bytes, FromBE(bytes[|bytes| - 8..]))
    ensures |bytes| < 16 ==> OpenBytes(bytes) == Ok(Unchecked(bytes))
  {
    hide FromBE, FreshFile;
    if |bytes| >= 16 { assert LastFooter(bytes)[8..] == bytes[|bytes| - 8..]; }
  }

  class StorageManager {
    var files: Files
    var paths: map<Path, FileId>
    var nextId: nat
    /** Contents of the files on disk that are not open. */
    var closed: map<Path, Bytes>

    ghost predicate Valid()
      reads this
    {
      && FilesOk(files)
      && CATALOG_FILE in files && 0 < nextId <= MAX_FILE_ID
      && CATALOG_PATH in paths && paths[CATALOG_PATH] == CATALOG_FILE
      && (forall f :: f in files ==> f.id < nextId)
      && (forall p :: p in paths ==> paths[p] in files && p !in closed)
      && (forall p, q :: p in paths && q in paths && paths[p] == paths[q] ==> p == q)
      && (forall p :: p in closed ==> ImageOk(closed[p]))
    }

    /** Everything on disk: what a later start of the engine will find. */
    function Disk(): map<Path, Bytes>
      reads this
      requires Valid()
    {
      closed + map p | p in paths :: files[paths[p]].bytes
    }

    /** `StorageManager::new`: catalog.db is open as file 0, whatever its footer says; if
        the engine wrote it, and the other files, all promises hold. */
    constructor (disk: map<Path, Bytes>)
      ensures (forall p :: p in disk ==> ImageOk(disk[p]))
              && (CATALOG_PATH in disk ==> OpenBytes(disk[CATALOG_PATH]).Ok?) ==>
                Valid()
      ensures files == map[CATALOG_FILE := Unchecked(if CATALOG_PATH in disk then disk[CATALOG_PATH] else [])]
      ensures paths == map[CATALOG_PATH := CATALOG_FILE] && nextId == 1
      ensures closed == disk - {CATALOG_PATH}
    {
      hide LayoutOk, FreshFile, FromBE;
      var bytes := if CATALOG_PATH in disk then disk[CATALOG_PATH] else [];
      FreshLayout();
      OpenIsUnchecked(bytes);
      var catalog :=
        if |bytes| >= FOOTER_SIZE then PageFile(bytes, FromBE(LastFooter(bytes)[8..])) else FreshFile();
      files := map[CATALOG_FILE := catalog];
      paths := map[CATALOG_PATH := CATALOG_FILE];
      nextId := 1;
      closed := disk - {CATALOG_PATH};
    }

    /** Writes into files leave the names alone. */
    twostate lemma StillValid()
      requires old(Valid()) && FilesOk(files) && files.Keys == old(files.Keys)
      requires paths == old(paths) && nextId == old(nextId) && closed == old(closed)
      ensures Valid()
    {
    }

    /** Whether there is a file of that name on disk, open or not. */
    method FileExists(path: Path) returns (exists_: bool)
      requires Valid()
      ensures exists_ <==> path in Disk()
    {
      exists_ := path in paths || path in closed;
    }

    /** How many pages there are to read: block i reads without an error for exactly
        these i. */
    method GetNumPages(file: FileId) returns (n: Option<nat>)
      requires Valid()
      ensures (n.Some? <==> file in files) && (n.Some? ==> |PageFiles.Pages(files[file])| == n.value)
      ensures forall i: nat :: ReadFrom(files, PageId(file, i)).Ok? <==> n.Some? && i < n.value
    {
      n := if file in files then Some(files[file].numPages) else None;
    }

    /** An open path keeps its id; another path gets a fresh one, after its footer's
        magic number was checked or a first page was written. */
    method OpenOrCreateFile(path: Path) returns (r: Outcome<FileId>)
      requires Valid() && path != CATALOG_PATH
      modifies this
      ensures Valid()
      ensures path in old(paths) ==> r == Ok(old(paths)[path]) && unchanged(this)
      ensures path !in old(paths) ==>
                var parsed := OpenBytes(if path in old(closed) then old(closed)[path] else []);
                if !parsed.Ok? then r == Err(CorruptPageFile) && unchanged(this)
                else if old(nextId) == MAX_FILE_ID then r == Panic && unchanged(this)
                else
                  && r == Ok(FileId(old(nextId))) && r.value !in old(files)
                  && files == old(files)[r.value := parsed.value]
                  && paths == old(paths)[path := r.value]
                  && nextId == old(nextId) + 1
                  && closed == old(closed) - {path}
    {
      hide LayoutOk, FreshFile, FromBE;
      if path in paths {
        return Ok(paths[path]);
      }
      var bytes := if path in closed then closed[path] else [];
      FreshLayout();
      var file: PageFile;
      if |bytes| >= FOOTER_SIZE {
        var footer := LastFooter(bytes);
        if FromBE(footer[..8]) != MAGIC_NUMBER {
          return Err(CorruptPageFile);
        }
        file := PageFile(bytes, FromBE(footer[8..]));
      } else {
        file := FreshFile();
      }
      if nextId == MAX_FILE_ID {
        return Panic;
      }
      var id := FileId(nextId);
      paths := paths[path := id];
      files := files[id := file];
      closed := closed - {path};
      nextId := nextId + 1;
      r := Ok(id);
    }

    /** Fills the buffer, or leaves it alone. */
    method ReadBlock(p: PageId, buf: array<byte>) returns (r: Outcome<()>)
      requires FilesOk(files) && buf.Length == PAGE_SIZE
      modifies buf
      ensures match ReadFrom(files, p)
              case Ok(data) => r == Ok(()) && buf[..] == data
              case Err(e) => r == Err(e) && buf[..] == old(buf[..])
              case Panic => false
    {
      if p.file !in files {
        return Err(FileNotFound);
      }
      var file := files[p.file];
      if p.num >= file.numPages {
        return Err(PageNotFound);
      }
      assert LayoutOk(file);
      var offset := p.num * PAGE_SIZE;
      CopyInto(buf, 0, file.bytes[offset..offset + PAGE_SIZE]);
      r := Ok(());
    }

    method EnsureFileCapacity(file: FileId, num: nat) returns (r: Outcome<()>)
      modifies this`files
      ensures r == if file in old(files) then Ok(()) else Err(FileNotFound)
      ensures files == if file in old(files)
                       then old(files)[file := EnsureCapacity(old(files)[file], num)] else old(files)
    {
      if file !in files {
        return Err(FileNotFound);
      }
      var info := files[file];
      var needed := (num + 1) * PAGE_SIZE;
      if needed > |info.bytes| {
        var longer := info.bytes + Zeros(needed - |info.bytes|);
        files := files[file := PageFile(WriteAt(longer, PAGE_SIZE * num + 1, Footer(num)), num)];
      } else {
        assert files == files[file := info];
      }
      r := Ok(());
    }

    method WriteBlock(p: PageId, data: Page) returns (r: Outcome<()>)
      modifies this`files
      ensures (r, files) == WriteBack(old(files), p, data) && files.Keys == old(files.Keys)
    {
      if p.file !in files {
        return Err(FileNotFound);
      }
      var capacity := EnsureFileCapacity(p.file, p.num);
      if !capacity.Ok? {
        return capacity;
      }
      var info := files[p.file];
      files := files[p.file := info.(bytes := WriteAt(info.bytes, PAGE_SIZE * p.num, data))];
      assert files == WriteBack(old(files), p, data).1;
      r := Ok(());
    }

    method AppendEmptyBlock(file: FileId) returns (r: Outcome<nat>)
      modifies this`files
      ensures (r, files) == AppendBlock(old(files), file)
    {
      if file !in files {
        return Err(FileNotFound);
      }
      var info := files[file];
      if info.numPages >= MAX_PAGES {
        return Err(Io);
      }
      var zeroed := WriteAt(info.bytes, PAGE_SIZE * info.numPages, Zeros(PAGE_SIZE));
      var numPages := info.numPages + 1;
      files := files[file := PageFile(WriteAt(zeroed, PAGE_SIZE * numPages + 1, Footer(numPages)), numPages)];
      r := Ok(numPages - 1);
    }
  }
}
