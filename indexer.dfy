/** Building the records that `index_files` (ingest.py) hands to the vector
    store: every chunk of every readable file, in file order and then chunk
    order, with metadata `{source, path, chunk}` and id "<basename>-<chunk>".
    The store is not modelled; the single `add` call is the method's `added`
    result. */
module Indexer {
  import opened Wrappers
  import opened Text
  import opened Chunker
  import opened Loader

  /** `{"source": basename, "path": fpath, "chunk": j}` */
  datatype Metadata = Metadata(source: string, path: string, chunk: nat)

  /** One chunk as it is stored: its text, its metadata and its id. */
  datatype Record = Record(text: string, metadata: Metadata, id: string)

  /** The arguments of `collection.add(documents=..., metadatas=..., ids=...)`. */
  datatype Batch = Batch(documents: seq<string>, metadatas: seq<Metadata>, ids: seq<string>)

  /** f"{basename}-{j}" */
  function ChunkId(basename: string, j: nat): string
  {
    basename + "-" + NatToString(j)
  }

  /** The record of chunk `j` (text `chunk`) of the file at `path`. */
  function ChunkRecord(path: string, j: nat, chunk: string): Record
  {
    Record(chunk, Metadata(Basename(path), path, j), ChunkId(Basename(path), j))
  }

  /** The chunks of one file, or none when it cannot be read. */
  function FileChunks(fs: FileSystem, path: string): seq<string>
  {
    match ReadDocument(fs, path)
    case Some(doc) => Chunks(doc, ChunkSize, ChunkOverlap)
    case None => []
  }

  /** The chunk lists of all files, in file order. */
  function AllChunks(fs: FileSystem, files: seq<string>): (cs: seq<seq<string>>)
    ensures |cs| == |files|
  {
    seq(|files|, i requires 0 <= i < |files| => FileChunks(fs, files[i]))
  }

  /** The records of one file with chunk list `chunks`, numbered from 0. */
  function FileRecords(path: string, chunks: seq<string>): (rs: seq<Record>)
    ensures |rs| == |chunks|
  {
    seq(|chunks|, j requires 0 <= j < |chunks| => ChunkRecord(path, j, chunks[j]))
  }

  /** The records of files whose chunk lists are `chunks`, in file order. */
  function RecordsOf(files: seq<string>, chunks: seq<seq<string>>): seq<Record>
    requires |files| == |chunks|
  {
    if files == [] then []
    else
      var m := |files| - 1;
      RecordsOf(files[..m], chunks[..m]) + FileRecords(files[m], chunks[m])
  }

  /** Where each record comes from: (file index, chunk index). */
  function OriginsOf(chunks: seq<seq<string>>): seq<(nat, nat)>
  {
    if chunks == [] then []
    else
      var m := |chunks| - 1;
      OriginsOf(chunks[..m]) + seq(|chunks[m]|, j => (m, j))
  }

  /** The records `index_files(files)` builds. */
  function Records(fs: FileSystem, files: seq<string>): seq<Record>
  {
    RecordsOf(files, AllChunks(fs, files))
  }

  /** The origins of those records. */
  function Origins(fs: FileSystem, files: seq<string>): seq<(nat, nat)>
  {
    OriginsOf(AllChunks(fs, files))
  }

  function Documents(rs: seq<Record>): seq<string>
  {
    seq(|rs|, k requires 0 <= k < |rs| => rs[k].text)
  }

  function Metadatas(rs: seq<Record>): seq<Metadata>
  {
    seq(|rs|, k requires 0 <= k < |rs| => rs[k].metadata)
  }

  function Ids(rs: seq<Record>): seq<string>
  {
    seq(|rs|, k requires 0 <= k < |rs| => rs[k].id)
  }

  /** `index_files(files)` after the store is opened and (best-effort)
      cleared: the outer loop over files and the inner loop over the chunks of
      each readable file fill `texts`, `metadatas` and `ids`; `add` is called
      once, and only when there is at least one chunk; the result is
      `(len(files), len(texts))`. */
  method IndexFiles(fs: FileSystem, files: seq<string>) returns (fileCount: nat, chunkCount: nat, added: Option<Batch>)
    ensures fileCount == |files|
    ensures chunkCount == |Records(fs, files)|
    ensures added.Some? <==> chunkCount > 0
    ensures added.Some? ==>
              added.value.documents == Documents(Records(fs, files)) &&
              added.value.metadatas == Metadatas(Records(fs, files)) &&
              added.value.ids == Ids(Records(fs, files))
  {
    var texts: seq<string> := [];
    var metadatas: seq<Metadata> := [];
    var ids: seq<string> := [];
    ghost var all := AllChunks(fs, files);
    for i := 0 to |files|
      invariant RecordsAre(RecordsOf(files[..i], all[..i]), texts, metadatas, ids)
    {
      var fpath := files[i];
      ghost var before := RecordsOf(files[..i], all[..i]);
      RecordsOfSnoc(files, all, i);
      var raw := ReadDocument(fs, fpath);
      assert all[i] == FileChunks(fs, fpath);
      if raw.None? {
        assert before + FileRecords(fpath, all[i]) == before;
        continue;
      }
      var chunks := ChunkText(raw.value, ChunkSize, ChunkOverlap);
      texts, metadatas, ids := AddFileChunks(fpath, chunks, before, texts, metadatas, ids);
    }
    assert files[..|files|] == files && all[..|files|] == all;
    if |texts| > 0 {
      added := Some(Batch(texts, metadatas, ids));
    } else {
      added := None;
    }
    fileCount, chunkCount := |files|, |texts|;
  }

  /** The inner loop of `index_files`: chunk `j` of the file at `path` is
      appended to `texts`, its metadata to `metadatas` and its id to `ids`. */
  method AddFileChunks(path: string, chunks: seq<string>, ghost before: seq<Record>,
                       texts0: seq<string>, metadatas0: seq<Metadata>, ids0: seq<string>)
    returns (texts: seq<string>, metadatas: seq<Metadata>, ids: seq<string>)
    requires RecordsAre(before, texts0, metadatas0, ids0)
    ensures RecordsAre(before + FileRecords(path, chunks), texts, metadatas, ids)
  {
    texts, metadatas, ids := texts0, metadatas0, ids0;
    assert FileRecords(path, chunks)[..0] == [];
    for j := 0 to |chunks|
      invariant RecordsAre(before + FileRecords(path, chunks)[..j], texts, metadatas, ids)
    {
      RecordsAreNext(before, path, chunks, j, texts, metadatas, ids);
      texts := texts + [chunks[j]];
      metadatas := metadatas + [Metadata(Basename(path), path, j)];
      ids := ids + [ChunkId(Basename(path), j)];
    }
    assert FileRecords(path, chunks)[..|chunks|] == FileRecords(path, chunks);
  }

  /** The records of the first `i + 1` files extend those of the first `i`. */
  lemma RecordsOfSnoc(files: seq<string>, chunks: seq<seq<string>>, i: nat)
    requires |files| == |chunks| && i < |files|
    ensures RecordsOf(files[..i + 1], chunks[..i + 1]) == RecordsOf(files[..i], chunks[..i]) + FileRecords(files[i], chunks[i])
  {
    assert files[..i + 1][..i] == files[..i];
    assert chunks[..i + 1][..i] == chunks[..i];
  }

  /** The three parallel lists hold the fields of `rs`, in order. */
  ghost predicate RecordsAre(rs: seq<Record>, texts: seq<string>, metadatas: seq<Metadata>, ids: seq<string>)
  {
    texts == Documents(rs) && metadatas == Metadatas(rs) && ids == Ids(rs)
  }

  /** Appending one record appends its fields to the three lists. */
  lemma RecordsAreSnoc(rs: seq<Record>, r: Record, texts: seq<string>, metadatas: seq<Metadata>, ids: seq<string>)
    requires RecordsAre(rs, texts, metadatas, ids)
    ensures RecordsAre(rs + [r], texts + [r.text], metadatas + [r.metadata], ids + [r.id])
  {
    assert Documents(rs + [r]) == Documents(rs) + [r.text];
    assert Metadatas(rs + [r]) == Metadatas(rs) + [r.metadata];
    assert Ids(rs + [r]) == Ids(rs) + [r.id];
  }

  /** One step of the inner loop of `index_files`: appending chunk `j` of a
      file keeps the lists equal to the records so far. */
  lemma RecordsAreNext(before: seq<Record>, path: string, chunks: seq<string>, j: nat,
                       texts: seq<string>, metadatas: seq<Metadata>, ids: seq<string>)
    requires j < |chunks|
    requires RecordsAre(before + FileRecords(path, chunks)[..j], texts, metadatas, ids)
    ensures RecordsAre(before + FileRecords(path, chunks)[..j + 1], texts + [chunks[j]],
                       metadatas + [Metadata(Basename(path), path, j)], ids + [ChunkId(Basename(path), j)])
  {
    var r := ChunkRecord(path, j, chunks[j]);
    assert FileRecords(path, chunks)[..j + 1] == FileRecords(path, chunks)[..j] + [r];
    assert before + FileRecords(path, chunks)[..j + 1] == (before + FileRecords(path, chunks)[..j]) + [r];
    RecordsAreSnoc(before + FileRecords(path, chunks)[..j], r, texts, metadatas, ids);
  }

  // ---------------------------------------------------------------- properties

  /** Every record is chunk `j` of file `files[f]`, with that file's base name
      as source and id "<basename>-<j>"; the records come in file order and
      then chunk order. Stated for any chunk lists. */
  lemma RecordsOfOrigin(files: seq<string>, chunks: seq<seq<string>>)
    requires |files| == |chunks|
    ensures |OriginsOf(chunks)| == |RecordsOf(files, chunks)|
    ensures forall k :: 0 <= k < |RecordsOf(files, chunks)| ==>
      var (f, j) := OriginsOf(chunks)[k];
      f < |files| && j < |chunks[f]| && RecordsOf(files, chunks)[k] == ChunkRecord(files[f], j, chunks[f][j])
    ensures forall k, l :: 0 <= k < l < |OriginsOf(chunks)| ==>
      OriginsOf(chunks)[k].0 < OriginsOf(chunks)[l].0 ||
      (OriginsOf(chunks)[k].0 == OriginsOf(chunks)[l].0 && OriginsOf(chunks)[k].1 < OriginsOf(chunks)[l].1)
  {
    RecordsOfAt(files, chunks);
    OriginsOrdered(chunks);
  }

  /** The record at each index is the chunk its origin names. */
  lemma {:induction false} RecordsOfAt(files: seq<string>, chunks: seq<seq<string>>)
    requires |files| == |chunks|
    ensures |OriginsOf(chunks)| == |RecordsOf(files, chunks)|
    ensures forall k :: 0 <= k < |RecordsOf(files, chunks)| ==>
      var (f, j) := OriginsOf(chunks)[k];
      f < |files| && j < |chunks[f]| && RecordsOf(files, chunks)[k] == ChunkRecord(files[f], j, chunks[f][j])
  {
    if files != [] {
      var m := |files| - 1;
      var init, cinit := files[..m], chunks[..m];
      RecordsOfAt(init, cinit);
      var rs, os := RecordsOf(files, chunks), OriginsOf(chunks);
      var rs0, os0 := RecordsOf(init, cinit), OriginsOf(cinit);
      assert rs == rs0 + FileRecords(files[m], chunks[m]);
      assert os == os0 + seq(|chunks[m]|, j => (m, j));
      forall k | 0 <= k < |rs|
        ensures var (f, j) := os[k];
          f < |files| && j < |chunks[f]| && rs[k] == ChunkRecord(files[f], j, chunks[f][j])
      {
        if k < |rs0| {
          assert rs[k] == rs0[k] && os[k] == os0[k];
          assert init[os0[k].0] == files[os0[k].0] && cinit[os0[k].0] == chunks[os0[k].0];
        } else {
          assert os[k] == (m, k - |rs0|);
        }
      }
    }
  }

  /** Origins come in file order, then chunk order, and name files below
      the number of chunk lists. */
  lemma {:induction false} OriginsOrdered(chunks: seq<seq<string>>)
    ensures forall k :: 0 <= k < |OriginsOf(chunks)| ==> OriginsOf(chunks)[k].0 < |chunks|
    ensures forall k, l :: 0 <= k < l < |OriginsOf(chunks)| ==>
      OriginsOf(chunks)[k].0 < OriginsOf(chunks)[l].0 ||
      (OriginsOf(chunks)[k].0 == OriginsOf(chunks)[l].0 && OriginsOf(chunks)[k].1 < OriginsOf(chunks)[l].1)
  {
    if chunks != [] {
      var m := |chunks| - 1;
      OriginsOrdered(chunks[..m]);
      var os0 := OriginsOf(chunks[..m]);
      var last := seq(|chunks[m]|, j => (m, j));
      var os := OriginsOf(chunks);
      assert os == os0 + last;
      forall k, l | 0 <= k < l < |os|
        ensures os[k].0 < os[l].0 || (os[k].0 == os[l].0 && os[k].1 < os[l].1)
      {
        if l < |os0| {
          assert os[k] == os0[k] && os[l] == os0[l];
        } else if k < |os0| {
          assert os[k] == os0[k] && os[l] == last[l - |os0|];
        } else {
          assert os[k] == last[k - |os0|] && os[l] == last[l - |os0|];
        }
      }
    }
  }

  /** Chunk `j` of file `f` is recorded, at some index `k`. Stated for any chunk lists. */
  lemma {:induction false} RecordsOfComplete(files: seq<string>, chunks: seq<seq<string>>, f: nat, j: nat) returns (k: nat)
    requires |files| == |chunks| && f < |files| && j < |chunks[f]|
    ensures |OriginsOf(chunks)| == |RecordsOf(files, chunks)|
    ensures k < |RecordsOf(files, chunks)| && OriginsOf(chunks)[k] == (f, j)
  {
    RecordsOfOrigin(files, chunks);
    var m := |files| - 1;
    var init, cinit := files[..m], chunks[..m];
    RecordsOfOrigin(init, cinit);
    var os0 := OriginsOf(cinit);
    assert OriginsOf(chunks) == os0 + seq(|chunks[m]|, j => (m, j));
    if f < m {
      k := RecordsOfComplete(init, cinit, f, j);
    } else {
      k := |os0| + j;
    }
  }

  /** Every record is chunk `j` of a readable file `files[f]` (its text is
      the j-th chunk of that file's document), with metadata
      `{source: basename, path: files[f], chunk: j}` and id "<basename>-<j>";
      and the records follow file order and then chunk order. */
  lemma RecordsOrigin(fs: FileSystem, files: seq<string>)
    ensures |Origins(fs, files)| == |Records(fs, files)|
    ensures forall k :: 0 <= k < |Records(fs, files)| ==>
      var (f, j) := Origins(fs, files)[k];
      f < |files| && j < |FileChunks(fs, files[f])| &&
      Records(fs, files)[k] == ChunkRecord(files[f], j, FileChunks(fs, files[f])[j])
    ensures forall k, l :: 0 <= k < l < |Origins(fs, files)| ==>
      Origins(fs, files)[k].0 < Origins(fs, files)[l].0 ||
      (Origins(fs, files)[k].0 == Origins(fs, files)[l].0 && Origins(fs, files)[k].1 < Origins(fs, files)[l].1)
  {
    var all := AllChunks(fs, files);
    RecordsOfOrigin(files, all);
    var rs, os := Records(fs, files), Origins(fs, files);
    assert rs == RecordsOf(files, all) && os == OriginsOf(all);
    forall k | 0 <= k < |rs|
      ensures var (f, j) := os[k];
        f < |files| && j < |FileChunks(fs, files[f])| && rs[k] == ChunkRecord(files[f], j, FileChunks(fs, files[f])[j])
    {
      var (f, j) := os[k];
      assert all[f] == FileChunks(fs, files[f]);
    }
  }

  /** Every chunk of every readable file is recorded, at some index `k`. */
  lemma RecordsComplete(fs: FileSystem, files: seq<string>, f: nat, j: nat) returns (k: nat)
    requires f < |files| && j < |FileChunks(fs, files[f])|
    ensures |Origins(fs, files)| == |Records(fs, files)|
    ensures k < |Records(fs, files)| && Origins(fs, files)[k] == (f, j)
    ensures Records(fs, files)[k] == ChunkRecord(files[f], j, FileChunks(fs, files[f])[j])
  {
    k := RecordsOfComplete(files, AllChunks(fs, files), f, j);
    RecordsOrigin(fs, files);
  }

  /** The last '-' of an id is the one before the chunk number. */
  lemma LastDashOfId(b: string, d: string)
    requires AllDigits(d)
    ensures LastIndexOf(b + "-" + d, '-') == |b|
  {
    var id := b + "-" + d;
    assert id[|b|] == '-';
  }

  /** Ids tell (base name, chunk index) pairs apart. */
  lemma ChunkIdInjective(b1: string, j1: nat, b2: string, j2: nat)
    requires ChunkId(b1, j1) == ChunkId(b2, j2)
    ensures b1 == b2 && j1 == j2
  {
    var id := ChunkId(b1, j1);
    LastDashOfId(b1, NatToString(j1));
    LastDashOfId(b2, NatToString(j2));
    assert b1 == id[..|b1|] == b2;
    assert NatToString(j1) == id[|b1| + 1..] == NatToString(j2);
    NatToStringInjective(j1, j2);
  }

  /** When the files have pairwise different base names, all record ids are
      different, so the store sees no id twice. */
  lemma IdsUnique(fs: FileSystem, files: seq<string>)
    requires forall f, g :: 0 <= f < g < |files| ==> Basename(files[f]) != Basename(files[g])
    ensures forall k, l :: 0 <= k < l < |Records(fs, files)| ==> Records(fs, files)[k].id != Records(fs, files)[l].id
  {
    RecordsOrigin(fs, files);
    var rs, os := Records(fs, files), Origins(fs, files);
    forall k, l | 0 <= k < l < |rs| ensures rs[k].id != rs[l].id {
      if rs[k].id == rs[l].id {
        ChunkIdInjective(Basename(files[os[k].0]), os[k].1, Basename(files[os[l].0]), os[l].1);
      }
    }
  }

  /** Two files with the same base name (say "a/faq.txt" and "b/faq.txt")
      that both have chunks give two different records the same id. */
  lemma SameBasenameCollides(fs: FileSystem, files: seq<string>, f: nat, g: nat) returns (k: nat, l: nat)
    requires f < g < |files| && Basename(files[f]) == Basename(files[g])
    requires |FileChunks(fs, files[f])| > 0 && |FileChunks(fs, files[g])| > 0
    ensures k < l < |Records(fs, files)| && Records(fs, files)[k].id == Records(fs, files)[l].id
  {
    var all := AllChunks(fs, files);
    assert all[f] == FileChunks(fs, files[f]) && all[g] == FileChunks(fs, files[g]);
    k, l := RecordsOfCollide(files, all, f, g);
  }

  /** `SameBasenameCollides` for any chunk lists. */
  lemma RecordsOfCollide(files: seq<string>, chunks: seq<seq<string>>, f: nat, g: nat) returns (k: nat, l: nat)
    requires |files| == |chunks| && f < g < |files| && Basename(files[f]) == Basename(files[g])
    requires |chunks[f]| > 0 && |chunks[g]| > 0
    ensures k < l < |RecordsOf(files, chunks)| && RecordsOf(files, chunks)[k].id == RecordsOf(files, chunks)[l].id
  {
    k := RecordsOfComplete(files, chunks, f, 0);
    l := RecordsOfComplete(files, chunks, g, 0);
    var rs, os := RecordsOf(files, chunks), OriginsOf(chunks);
    assert rs[k].id == ChunkId(Basename(files[f]), 0) by {
      RecordsOfAt(files, chunks);
    }
    assert rs[l].id == ChunkId(Basename(files[g]), 0) by {
      RecordsOfAt(files, chunks);
    }
    assert k < l by {
      OriginsOrdered(chunks);
      assert !(l < k) && k != l;
    }
  }

  /** A file that cannot be read adds no record: appending it leaves the
      records unchanged. At any other position the same holds by
      `RecordsOrigin`, since that file has no chunks and so no record names it. */
  lemma UnreadableFileSkipped(fs: FileSystem, files: seq<string>, path: string)
    requires ReadDocument(fs, path).None?
    ensures Records(fs, files + [path]) == Records(fs, files)
  {
    var all := AllChunks(fs, files + [path]);
    assert files + [path] != [];
    assert (files + [path])[..|files|] == files;
    assert all[..|files|] == AllChunks(fs, files);
  }

  /** Indexing a folder with one ".txt" file "<dir>/<stem>.txt" whose content
      is a single line without surrounding whitespace and no longer than a
      step stores one record: the whole text, with source "<stem>.txt",
      chunk 0 and id "<stem>.txt-0". */
  lemma OneLineTextFile(fs: FileSystem, dir: string, stem: string, t: string)
    requires '/' !in stem && '.' !in stem && stem != []
    requires dir + "/" + stem + ".txt" in fs.texts && fs.texts[dir + "/" + stem + ".txt"] == t
    requires '\r' !in t && '\n' !in t
    requires 0 < |t| <= Step(ChunkSize, ChunkOverlap)
    requires !IsWhitespace(t[0]) && !IsWhitespace(t[|t| - 1])
    ensures Records(fs, [dir + "/" + stem + ".txt"]) ==
              [Record(t, Metadata(stem + ".txt", dir + "/" + stem + ".txt", 0), stem + ".txt" + "-0")]
  {
    var path := dir + "/" + stem + ".txt";
    OneLineChunks(fs, dir, stem, t);
    SingleFileRecords(fs, path);
    FirstRecord(path, stem + ".txt", t);
  }

  /** The file of `OneLineTextFile` gives a single chunk, its whole text. */
  lemma OneLineChunks(fs: FileSystem, dir: string, stem: string, t: string)
    requires '/' !in stem && '.' !in stem && stem != []
    requires dir + "/" + stem + ".txt" in fs.texts && fs.texts[dir + "/" + stem + ".txt"] == t
    requires '\r' !in t && '\n' !in t
    requires 0 < |t| <= Step(ChunkSize, ChunkOverlap)
    requires !IsWhitespace(t[0]) && !IsWhitespace(t[|t| - 1])
    ensures Basename(dir + "/" + stem + ".txt") == stem + ".txt"
    ensures FileChunks(fs, dir + "/" + stem + ".txt") == [t]
  {
    var path := dir + "/" + stem + ".txt";
    TxtPath(dir, stem);
    OneLineDocument(fs, path, t);
    ShortTextOneChunk(t, ChunkSize, ChunkOverlap);
  }

  /** The records of a file with the one chunk `t`. */
  lemma FirstRecord(path: string, name: string, t: string)
    requires Basename(path) == name
    ensures FileRecords(path, [t]) == [Record(t, Metadata(name, path, 0), name + "-0")]
  {
    assert FileRecords(path, [t]) == [ChunkRecord(path, 0, t)];
    FirstChunkId(name);
  }

  /** The base name of "<dir>/<stem>.txt" and its extension. */
  lemma TxtPath(dir: string, stem: string)
    requires '/' !in stem && '.' !in stem && stem != []
    ensures Basename(dir + "/" + stem + ".txt") == stem + ".txt"
    ensures Extension(dir + "/" + stem + ".txt") == ".txt"
  {
    var name := stem + ".txt";
    var path := dir + "/" + stem + ".txt";
    assert path == dir + "/" + name;
    assert '/' !in name by {
      assert forall i :: 0 <= i < |name| ==> name[i] == (if i < |stem| then stem[i] else ".txt"[i - |stem|]);
    }
    BasenameOfJoin(dir, name);
    assert name == stem + "." + "txt";
    assert stem[0] != '.';
    ExtensionOfStem(path, stem, "txt");
  }

  /** A ".txt" file whose content is one line without surrounding whitespace
      is read as that line. */
  lemma OneLineDocument(fs: FileSystem, path: string, t: string)
    requires Extension(path) == ".txt" && path in fs.texts && fs.texts[path] == t
    requires '\r' !in t && '\n' !in t
    requires 0 < |t| && !IsWhitespace(t[0]) && !IsWhitespace(t[|t| - 1])
    ensures ReadDocument(fs, path) == Some(t)
    ensures !AllWhitespace(t)
  {
    assert !IsPdfExtension(".txt");
    TranslateAbsent(t);
    StripTrimmed(t);
    NormaliseSingleLine(t);
  }

  /** The records of a single file are that file's records. */
  lemma SingleFileRecords(fs: FileSystem, path: string)
    ensures Records(fs, [path]) == FileRecords(path, FileChunks(fs, path))
  {
    var all := AllChunks(fs, [path]);
    assert all == [FileChunks(fs, path)];
    RecordsOfSingle(path, all[0]);
  }

  lemma RecordsOfSingle(path: string, chunks: seq<string>)
    ensures RecordsOf([path], [chunks]) == FileRecords(path, chunks)
  {
    assert [path][..0] == [] && [chunks][..0] == [];
  }

  /** The id of the first chunk of a file. */
  lemma FirstChunkId(b: string)
    ensures ChunkId(b, 0) == b + "-0"
  {
    assert DigitChar(0) == '0';
  }
}
