/** File ingestion as utils.py does it: the extension rules, the text-extraction dispatch,
    the ZIP walk filter, the batch of uploads folded into one filename-to-path dict, and the
    batch text collection that skips failures. Files, archives and the extraction libraries
    are not modelled: extraction is an injected function and an unpacked archive is the
    listing its walk produces. */
module Ingest {
  import opened Text
  import opened Outcomes
  import opened OrderedDict
  import opened Seqs

  // ---------------------------------------------------------------------------
  // Names and extensions

  /** Index of the last occurrence of c in s, or -1 when there is none (str.rfind). */
  function LastIndexOf(s: string, c: char): (i: int)
    ensures -1 <= i < |s|
  {
    if s == [] then -1
    else if s[|s| - 1] == c then |s| - 1
    else LastIndexOf(s[..|s| - 1], c)
  }

  /** The last occurrence found is an occurrence, and none follows it. */
  lemma {:induction false} LastIndexOfIsLast(s: string, c: char)
    ensures LastIndexOf(s, c) >= 0 ==> s[LastIndexOf(s, c)] == c
    ensures forall j :: LastIndexOf(s, c) < j < |s| ==> s[j] != c
  {
    if s != [] && s[|s| - 1] != c {
      LastIndexOfIsLast(s[..|s| - 1], c);
    }
  }

  /** os.path.basename on POSIX: what follows the last '/'. */
  function BaseName(p: string): (b: string)
    ensures '/' !in b
  {
    LastIndexOfIsLast(p, '/');
    p[LastIndexOf(p, '/') + 1..]
  }

  /** pathlib's suffix of a bare file name: from its last '.' on, unless that dot starts
      the name or ends it, in which case there is no suffix. */
  function Suffix(name: string): string {
    var i := LastIndexOf(name, '.');
    if 0 < i < |name| - 1 then name[i..] else []
  }

  /** Path(name).suffix.lower() for a bare file name. */
  function NameExtension(name: string): string {
    Lower(Suffix(name))
  }

  /** Path(path).suffix.lower(): the extension of the last component of a path. */
  function Extension(path: string): string {
    NameExtension(BaseName(path))
  }

  datatype Format = Pdf | Docx | Txt

  /** The reader a lower-cased extension selects; None for every extension but the three. */
  function FormatOf(ext: string): Option<Format> {
    if ext == ".pdf" then Some(Pdf)
    else if ext == ".docx" then Some(Docx)
    else if ext == ".txt" then Some(Txt)
    else None
  }

  /** The extension is one of .pdf, .docx and .txt. */
  predicate IsSupported(ext: string) {
    FormatOf(ext).Some?
  }

  /** Upper- or lower-case, the same extension selects the same reader. */
  lemma {:induction false} FormatIgnoresCase(name: string)
    ensures FormatOf(NameExtension(Lower(name))) == FormatOf(NameExtension(name))
  {
    LowerKeepsDots(name);
    LowerIdempotent(Suffix(name));
    assert Suffix(Lower(name)) == Lower(Suffix(name));
  }

  lemma {:induction false} LowerKeepsDots(s: string)
    ensures LastIndexOf(Lower(s), '.') == LastIndexOf(s, '.')
  {
    if s != [] {
      LowerKeepsDots(s[..|s| - 1]);
      assert Lower(s)[..|s| - 1] == Lower(s[..|s| - 1]);
    }
  }

  // ---------------------------------------------------------------------------
  // extract_text_from_file

  /** The readers the pipeline calls, as one injected partial function: the text that the
      reader for a format returns for a path (already strip()-ed), or None when it raises. */
  type Extractor = (Format, string) -> Option<string>

  /** extract_text_from_file: route on the extension of the path to one reader. */
  function ExtractText(extract: Extractor, path: string): (r: Result<string>)
    ensures r.Err? ==> r.error.UnsupportedFormat? || r.error == ExtractionError(path)
  {
    var ext := Extension(path);
    match FormatOf(ext)
    case None => Err(UnsupportedFormat(ext))
    case Some(f) =>
      match extract(f, path)
      case None => Err(ExtractionError(path))
      case Some(text) => Ok(text)
  }

  /** Dispatch by suffix: a text comes from exactly the reader the extension selects, an
      unsupported extension fails without consulting any reader, and a reader that fails
      makes the file fail. */
  lemma ExtractTextDispatch(extract: Extractor, path: string)
    ensures FormatOf(Extension(path)).None? ==>
              ExtractText(extract, path) == Err(UnsupportedFormat(Extension(path)))
    ensures forall f :: FormatOf(Extension(path)) == Some(f) ==>
              (ExtractText(extract, path).Ok? <==> extract(f, path).Some?)
    ensures forall f :: FormatOf(Extension(path)) == Some(f) && extract(f, path).Some? ==>
              ExtractText(extract, path) == Ok(extract(f, path).value)
  {
  }

  /** Only the selected reader matters: two extractors that agree on it give the same result. */
  lemma ExtractTextUsesOneReader(e1: Extractor, e2: Extractor, path: string)
    requires forall f :: FormatOf(Extension(path)) == Some(f) ==> e1(f, path) == e2(f, path)
    ensures ExtractText(e1, path) == ExtractText(e2, path)
  {
  }

  // ---------------------------------------------------------------------------
  // extract_resumes_from_zip

  /** One file the directory walk reports: its bare name and the path joined from its directory. */
  type WalkEntry = (string, string)

  /** A bare file name whose extension is .pdf, .docx or .txt. */
  predicate SupportedName(name: string) {
    IsSupported(NameExtension(name))
  }

  /** The dict the walk builds by keyed assignment of the entries with a supported name. */
  function ZipDict(walk: seq<WalkEntry>): Dict<string, string> {
    FromPairs(Filter(walk, SupportedName))
  }

  lemma ZipDictSnoc(walk: seq<WalkEntry>, e: WalkEntry)
    ensures ZipDict(walk + [e]) == if SupportedName(e.0) then ZipDict(walk).Put(e.0, e.1) else ZipDict(walk)
  {
    FilterSnoc(walk, e, SupportedName);
    if SupportedName(e.0) {
      FromPairsSnoc(Filter(walk, SupportedName), e);
    }
  }

  /** extract_resumes_from_zip: unpack (None models an archive that cannot be opened), then
      record every walked file with a supported extension under its bare name. */
  method ExtractResumesFromZip(unpacked: Option<seq<WalkEntry>>) returns (r: Result<Dict<string, string>>)
    ensures unpacked.None? ==> r == Err(ArchiveError)
    ensures unpacked.Some? ==> r == Ok(ZipDict(unpacked.value))
  {
    if unpacked.None? {
      return Err(ArchiveError);
    }
    var walk := unpacked.value;
    var resumes := Empty<string, string>();
    var i := 0;
    while i < |walk|
      invariant 0 <= i <= |walk|
      invariant resumes == ZipDict(walk[..i])
    {
      var (file, filePath) := walk[i];
      TakeSnoc(walk, i);
      ZipDictSnoc(walk[..i], walk[i]);
      if SupportedName(file) {
        resumes := resumes.Put(file, filePath);
      }
      i := i + 1;
    }
    TakeAll(walk);
    return Ok(resumes);
  }

  /** ZIP filter: a name is recorded exactly when the walk reports a file of that name with a
      supported extension. */
  lemma ZipDictHasKey(walk: seq<WalkEntry>, k: string)
    ensures k in ZipDict(walk).m <==> SupportedName(k) && exists i :: 0 <= i < |walk| && walk[i].0 == k
  {
    FilterHasKey(walk, SupportedName, k);
  }

  /** ZIP filter, last write wins: a supported name maps to the path of the last file of that
      name in walk order. */
  lemma ZipDictLastWins(walk: seq<WalkEntry>, i: nat)
    requires i < |walk| && SupportedName(walk[i].0)
    requires forall j :: i < j < |walk| ==> walk[j].0 != walk[i].0
    ensures walk[i].0 in ZipDict(walk).m && ZipDict(walk).m[walk[i].0] == walk[i].1
  {
    FilterLastWins(walk, SupportedName, i);
  }

  // ---------------------------------------------------------------------------
  // process_resume_files

  /** An uploaded file: its declared name and, for a ZIP, what unpacking it into the scratch
      directory and walking that directory lists (None when the archive cannot be opened). */
  datatype Upload = Upload(name: string, unpacked: Option<seq<WalkEntry>>)

  lemma {:induction false} LastIndexOfSkips(a: string, b: string, c: char)
    requires c !in b
    ensures LastIndexOf(a + b, c) == LastIndexOf(a, c)
  {
    if b != [] {
      assert (a + b)[..|a + b| - 1] == a + b[..|b| - 1];
      LastIndexOfSkips(a, b[..|b| - 1], c);
    } else {
      assert a + b == a;
    }
  }

  /** os.path.join(dir, name) for a name without '/'. */
  function JoinPath(dir: string, name: string): (p: string)
    requires '/' !in name
    ensures BaseName(p) == name
  {
    var head := if dir == [] || dir[|dir| - 1] == '/' then dir else dir + "/";
    LastIndexOfSkips(head, name, '/');
    assert head != [] ==> LastIndexOf(head, '/') == |head| - 1;
    head + name
  }

  /** The upload is a ZIP that unpacks, or a document with a supported extension. */
  predicate Accepted(u: Upload) {
    var ext := NameExtension(BaseName(u.name));
    (ext == ".zip" && u.unpacked.Some?) || (ext != ".zip" && IsSupported(ext))
  }

  /** The error an upload that is not accepted aborts the batch with. */
  function Rejection(u: Upload): Error {
    var filename := BaseName(u.name);
    if NameExtension(filename) == ".zip" then ArchiveError else UnsupportedFormat(filename)
  }

  /** One iteration of the upload loop. */
  function AddUpload(resumes: Dict<string, string>, u: Upload, tempDir: string): Result<Dict<string, string>> {
    var filename := BaseName(u.name);
    var ext := NameExtension(filename);
    if ext == ".zip" then
      match u.unpacked
      case None => Err(ArchiveError)
      case Some(walk) => Ok(resumes.Update(ZipDict(walk)))
    else if IsSupported(ext) then Ok(resumes.Put(filename, JoinPath(tempDir, filename)))
    else Err(UnsupportedFormat(filename))
  }

  /** The uploads folded one after another into the filename-to-path dict; the first failure aborts. */
  function ProcessUploads(uploads: seq<Upload>, tempDir: string): Result<Dict<string, string>> {
    if uploads == [] then Ok(Empty())
    else
      match ProcessUploads(uploads[..|uploads| - 1], tempDir)
      case Err(e) => Err(e)
      case Ok(resumes) => AddUpload(resumes, uploads[|uploads| - 1], tempDir)
  }

  lemma ProcessSnoc(uploads: seq<Upload>, u: Upload, tempDir: string)
    ensures var r := ProcessUploads(uploads, tempDir);
            ProcessUploads(uploads + [u], tempDir) == if r.Err? then r else AddUpload(r.value, u, tempDir)
  {
    InitOfSnoc(uploads, u);
  }

  /** One upload is added exactly when it is accepted, and otherwise fails with its rejection. */
  lemma AddUploadOutcome(resumes: Dict<string, string>, u: Upload, tempDir: string)
    ensures AddUpload(resumes, u, tempDir).Ok? <==> Accepted(u)
    ensures AddUpload(resumes, u, tempDir).Err? ==> AddUpload(resumes, u, tempDir).error == Rejection(u)
  {
  }

  /** The body of the upload loop: a ZIP is unpacked and merged with update, a supported
      document is recorded under its basename at its scratch path, anything else aborts. */
  method AddUploadStep(resumes: Dict<string, string>, file: Upload, tempDir: string) returns (r: Result<Dict<string, string>>)
    ensures r == AddUpload(resumes, file, tempDir)
  {
    var filename := BaseName(file.name);
    var ext := NameExtension(filename);
    if ext == ".zip" {
      var extracted := ExtractResumesFromZip(file.unpacked);
      if extracted.Err? {
        return extracted;
      }
      return Ok(resumes.Update(extracted.value));
    } else if IsSupported(ext) {
      return Ok(resumes.Put(filename, JoinPath(tempDir, filename)));
    } else {
      return Err(UnsupportedFormat(filename));
    }
  }

  /** process_resume_files. */
  method ProcessResumeFiles(uploads: seq<Upload>, tempDir: string) returns (r: Result<Dict<string, string>>)
    ensures r == ProcessUploads(uploads, tempDir)
    ensures r.Ok? ==> r.value.Valid()
  {
    var resumes := Empty<string, string>();
    var i := 0;
    while i < |uploads|
      invariant 0 <= i <= |uploads|
      invariant ProcessUploads(uploads[..i], tempDir) == Ok(resumes)
    {
      var file := uploads[i];
      TakeSnoc(uploads, i);
      ProcessSnoc(uploads[..i], file, tempDir);
      var step := AddUploadStep(resumes, file, tempDir);
      if step.Err? {
        ProcessErrorSticks(uploads, tempDir, i + 1);
        return step;
      }
      resumes := step.value;
      i := i + 1;
    }
    TakeAll(uploads);
    ProcessValid(uploads, tempDir);
    return Ok(resumes);
  }

  /** Every dict the batch produces is a valid ordered dict. */
  lemma {:induction false} ProcessValid(uploads: seq<Upload>, tempDir: string)
    ensures ProcessUploads(uploads, tempDir).Ok? ==> ProcessUploads(uploads, tempDir).value.Valid()
  {
    if uploads != [] {
      var init := uploads[..|uploads| - 1];
      var u := uploads[|uploads| - 1];
      ProcessValid(init, tempDir);
      var r := ProcessUploads(init, tempDir);
      if r.Ok? {
        var filename := BaseName(u.name);
        var ext := NameExtension(filename);
        if ext == ".zip" {
          if u.unpacked.Some? {
            FromPairsValid(Filter(u.unpacked.value, SupportedName));
            UpdateValid(r.value, ZipDict(u.unpacked.value));
          }
        } else if IsSupported(ext) {
          PutValid(r.value, filename, JoinPath(tempDir, filename));
        }
      }
    }
  }

  /** A failure in a prefix of the uploads is the failure of the whole batch. */
  lemma {:induction false} ProcessErrorSticks(uploads: seq<Upload>, tempDir: string, n: nat)
    requires n <= |uploads| && ProcessUploads(uploads[..n], tempDir).Err?
    ensures ProcessUploads(uploads, tempDir) == ProcessUploads(uploads[..n], tempDir)
    decreases |uploads| - n
  {
    if n < |uploads| {
      TakeSnoc(uploads, n);
      ProcessSnoc(uploads[..n], uploads[n], tempDir);
      ProcessErrorSticks(uploads, tempDir, n + 1);
    } else {
      TakeAll(uploads);
    }
  }

  /** The batch succeeds exactly when every upload is accepted (a ZIP that opens, or a
      .pdf/.docx/.txt document): any other extension aborts it. */
  lemma {:induction false} ProcessOkIff(uploads: seq<Upload>, tempDir: string)
    ensures ProcessUploads(uploads, tempDir).Ok? <==> forall i :: 0 <= i < |uploads| ==> Accepted(uploads[i])
  {
    if uploads != [] {
      var init := uploads[..|uploads| - 1];
      var u := uploads[|uploads| - 1];
      InitLast(uploads);
      ProcessSnoc(init, u, tempDir);
      ProcessOkIff(init, tempDir);
      if ProcessUploads(init, tempDir).Ok? {
        AddUploadOutcome(ProcessUploads(init, tempDir).value, u, tempDir);
      }
      assert forall i :: 0 <= i < |init| ==> init[i] == uploads[i];
    }
  }

  /** Upload i is the first upload that is not accepted, and e is its rejection. */
  predicate FirstRejected(uploads: seq<Upload>, i: int, e: Error) {
    && 0 <= i < |uploads|
    && !Accepted(uploads[i])
    && (forall j :: 0 <= j < i ==> Accepted(uploads[j]))
    && e == Rejection(uploads[i])
  }

  lemma FirstRejectedSnoc(uploads: seq<Upload>, u: Upload, i: int, e: Error)
    requires FirstRejected(uploads, i, e)
    ensures FirstRejected(uploads + [u], i, e)
  {
    assert forall j :: 0 <= j < |uploads| ==> (uploads + [u])[j] == uploads[j];
  }

  lemma FirstRejectedLast(uploads: seq<Upload>, u: Upload, e: Error)
    requires forall j :: 0 <= j < |uploads| ==> Accepted(uploads[j])
    requires !Accepted(u) && e == Rejection(u)
    ensures FirstRejected(uploads + [u], |uploads|, e)
  {
    assert forall j :: 0 <= j < |uploads| ==> (uploads + [u])[j] == uploads[j];
  }

  /** A failing batch fails with the rejection of its first upload that is not accepted. */
  lemma {:induction false} ProcessFirstRejection(uploads: seq<Upload>, tempDir: string)
    requires ProcessUploads(uploads, tempDir).Err?
    ensures exists i :: FirstRejected(uploads, i, ProcessUploads(uploads, tempDir).error)
  {
    var init := uploads[..|uploads| - 1];
    var u := uploads[|uploads| - 1];
    InitLast(uploads);
    ProcessSnoc(init, u, tempDir);
    var e := ProcessUploads(uploads, tempDir).error;
    if ProcessUploads(init, tempDir).Err? {
      ProcessFirstRejection(init, tempDir);
      var i :| FirstRejected(init, i, e);
      FirstRejectedSnoc(init, u, i, e);
    } else {
      ProcessOkIff(init, tempDir);
      AddUploadOutcome(ProcessUploads(init, tempDir).value, u, tempDir);
      FirstRejectedLast(init, u, e);
    }
  }

  /** The (name, path) pairs the uploads contribute, in the order they are assigned: a
      document its own basename and scratch path, a ZIP its supported walk entries. */
  function Contributions(uploads: seq<Upload>, tempDir: string): seq<WalkEntry> {
    if uploads == [] then []
    else
      var u := uploads[|uploads| - 1];
      var filename := BaseName(u.name);
      var ext := NameExtension(filename);
      Contributions(uploads[..|uploads| - 1], tempDir) +
        (if ext == ".zip" then (if u.unpacked.Some? then Filter(u.unpacked.value, SupportedName) else [])
         else if IsSupported(ext) then [(filename, JoinPath(tempDir, filename))]
         else [])
  }

  /** ZIP merge order: merging each archive's dict with update is the same as assigning all
      contributed pairs in upload order, so for a repeated name the last one wins. */
  lemma {:induction false} ProcessIsAssignmentInOrder(uploads: seq<Upload>, tempDir: string)
    requires ProcessUploads(uploads, tempDir).Ok?
    ensures ProcessUploads(uploads, tempDir).value == FromPairs(Contributions(uploads, tempDir))
  {
    if uploads != [] {
      var init := uploads[..|uploads| - 1];
      var u := uploads[|uploads| - 1];
      InitLast(uploads);
      ProcessSnoc(init, u, tempDir);
      ProcessIsAssignmentInOrder(init, tempDir);
      var filename := BaseName(u.name);
      var ext := NameExtension(filename);
      if ext == ".zip" {
        FromPairsAppend(Contributions(init, tempDir), Filter(u.unpacked.value, SupportedName));
      } else {
        FromPairsSnoc(Contributions(init, tempDir), (filename, JoinPath(tempDir, filename)));
      }
    }
  }

  /** Resolved names: a name is in the batch's dict exactly when some upload contributes it,
      and it maps to the path of the last contribution under that name. */
  lemma ProcessLookup(uploads: seq<Upload>, tempDir: string, k: string)
    requires ProcessUploads(uploads, tempDir).Ok?
    ensures var c := Contributions(uploads, tempDir);
            var d := ProcessUploads(uploads, tempDir).value;
            && (k in d.m <==> exists i :: 0 <= i < |c| && c[i].0 == k)
            && (forall i :: 0 <= i < |c| && c[i].0 == k && (forall j :: i < j < |c| ==> c[j].0 != k) ==> d.m[k] == c[i].1)
  {
    var c := Contributions(uploads, tempDir);
    ProcessIsAssignmentInOrder(uploads, tempDir);
    FromPairsHasKey(c, k);
    forall i | 0 <= i < |c| && c[i].0 == k && (forall j :: i < j < |c| ==> c[j].0 != k)
      ensures FromPairs(c).m[k] == c[i].1
    {
      FromPairsLastWins(c, i);
    }
  }

  /** Direct uploads: a supported document uploaded last is resolved to its scratch path under
      its basename. */
  lemma DirectUploadRecorded(uploads: seq<Upload>, tempDir: string, u: Upload)
    requires ProcessUploads(uploads, tempDir).Ok?
    requires IsSupported(NameExtension(BaseName(u.name)))
    ensures var filename := BaseName(u.name);
            var r := ProcessUploads(uploads + [u], tempDir);
            r.Ok? && r.value.m == ProcessUploads(uploads, tempDir).value.m[filename := JoinPath(tempDir, filename)]
  {
    ProcessSnoc(uploads, u, tempDir);
  }

  // ---------------------------------------------------------------------------
  // extract_all_resume_texts

  /** extract_text for one path. */
  function ReaderOf(extract: Extractor): string -> Result<string> {
    (filePath: string) => ExtractText(extract, filePath)
  }

  /** The texts of the first n resolved files, in order, leaving out every file whose
      extraction fails. */
  function CollectTexts(read: string -> Result<string>, resumes: Dict<string, string>, n: nat): Dict<string, string>
    requires resumes.Valid() && n <= |resumes.keys|
  {
    if n == 0 then Empty()
    else
      var texts := CollectTexts(read, resumes, n - 1);
      var filename := resumes.keys[n - 1];
      match read(resumes.m[filename])
      case Ok(text) => texts.Put(filename, text)
      case Err(_) => texts
  }

  lemma CollectTextsStep(read: string -> Result<string>, resumes: Dict<string, string>, i: nat)
    requires resumes.Valid() && i < |resumes.keys|
    ensures var filename := resumes.keys[i];
            var text := read(resumes.m[filename]);
            CollectTexts(read, resumes, i + 1) ==
              if text.Ok? then CollectTexts(read, resumes, i).Put(filename, text.value) else CollectTexts(read, resumes, i)
  {
  }

  /** Soundness: every collected name is one of the first n resolved names, with the text its
      path extracts to. */
  lemma {:induction false} CollectTextsSound(read: string -> Result<string>, resumes: Dict<string, string>, n: nat, k: string)
    requires resumes.Valid() && n <= |resumes.keys|
    requires k in CollectTexts(read, resumes, n).m
    ensures k in resumes.m && k in resumes.keys[..n]
    ensures read(resumes.m[k]) == Ok(CollectTexts(read, resumes, n).m[k])
  {
    var filename := resumes.keys[n - 1];
    TakeSnoc(resumes.keys, n - 1);
    var texts := CollectTexts(read, resumes, n - 1);
    var text := read(resumes.m[filename]);
    if text.Ok? {
      assert CollectTexts(read, resumes, n) == texts.Put(filename, text.value);
    } else {
      assert CollectTexts(read, resumes, n) == texts;
    }
    if k != filename || text.Err? {
      CollectTextsSound(read, resumes, n - 1, k);
    }
  }

  /** Completeness: each of the first n resolved names whose extraction succeeds is collected. */
  lemma {:induction false} CollectTextsComplete(read: string -> Result<string>, resumes: Dict<string, string>, n: nat, i: nat)
    requires resumes.Valid() && i < n <= |resumes.keys|
    requires read(resumes.m[resumes.keys[i]]).Ok?
    ensures resumes.keys[i] in CollectTexts(read, resumes, n).m
  {
    if i < n - 1 {
      CollectTextsComplete(read, resumes, n - 1, i);
    }
  }

  /** The first n files' texts form a valid dict of at most n entries. */
  lemma {:induction false} CollectTextsValid(read: string -> Result<string>, resumes: Dict<string, string>, n: nat)
    requires resumes.Valid() && n <= |resumes.keys|
    ensures CollectTexts(read, resumes, n).Valid() && CollectTexts(read, resumes, n).Len() <= n
  {
    if n > 0 {
      CollectTextsValid(read, resumes, n - 1);
      var texts := CollectTexts(read, resumes, n - 1);
      var filename := resumes.keys[n - 1];
      match read(resumes.m[filename])
      case Ok(text) => PutValid(texts, filename, text);
      case Err(_) =>
    }
  }

  /** The texts of all resolved files. */
  function AllTexts(extract: Extractor, resumes: Dict<string, string>): Dict<string, string>
    requires resumes.Valid()
  {
    CollectTexts(ReaderOf(extract), resumes, |resumes.keys|)
  }

  /** The loop of extract_all_resume_texts, for any way of reading one path: each resolved file
      in order, its text recorded when reading succeeds and the file skipped otherwise. */
  method CollectEach(read: string -> Result<string>, resumes: Dict<string, string>) returns (texts: Dict<string, string>)
    requires resumes.Valid()
    ensures texts == CollectTexts(read, resumes, |resumes.keys|)
  {
    texts := Empty();
    var i := 0;
    while i < |resumes.keys|
      invariant 0 <= i <= |resumes.keys|
      invariant texts == CollectTexts(read, resumes, i)
    {
      var filename := resumes.keys[i];
      var filePath := resumes.m[filename];
      var text := read(filePath);
      CollectTextsStep(read, resumes, i);
      if text.Ok? {
        texts := texts.Put(filename, text.value);
      }
      i := i + 1;
    }
  }

  /** extract_all_resume_texts: never fails; records the text of every file that extracts. */
  method ExtractAllResumeTexts(extract: Extractor, resumes: Dict<string, string>) returns (texts: Dict<string, string>)
    requires resumes.Valid()
    ensures texts == AllTexts(extract, resumes)
  {
    texts := CollectEach(ReaderOf(extract), resumes);
  }

  /** Extraction sub-map: the collected names are resolved names, each with the text its path
      extracts to, every resolved name that extracts is collected, and so there are never
      more texts than resolved files. */
  lemma AllTextsMeaning(extract: Extractor, resumes: Dict<string, string>, k: string)
    requires resumes.Valid()
    ensures var texts := AllTexts(extract, resumes);
            && texts.Len() <= resumes.Len()
            && (k in texts.m <==> k in resumes.m && ExtractText(extract, resumes.m[k]).Ok?)
            && (k in texts.m ==> Ok(texts.m[k]) == ExtractText(extract, resumes.m[k]))
  {
    var n := |resumes.keys|;
    var read := ReaderOf(extract);
    CollectTextsValid(read, resumes, n);
    if k in CollectTexts(read, resumes, n).m {
      CollectTextsSound(read, resumes, n, k);
    }
    if k in resumes.m && ExtractText(extract, resumes.m[k]).Ok? {
      var i :| 0 <= i < n && resumes.keys[i] == k;
      CollectTextsComplete(read, resumes, n, i);
    }
  }

  // ---------------------------------------------------------------------------
  // the two calls every front-end makes in turn

  /** process_resume_files followed by extract_all_resume_texts: the resolved files and the
      texts extracted from them, or the error that aborted the batch. */
  function ResolveTexts(extract: Extractor, uploads: seq<Upload>, tempDir: string): Result<(Dict<string, string>, Dict<string, string>)> {
    match ProcessUploads(uploads, tempDir)
    case Err(e) => Err(e)
    case Ok(resumes) =>
      ProcessValid(uploads, tempDir);
      Ok((resumes, AllTexts(extract, resumes)))
  }

  /** Counts: there are never more extracted texts than resolved files, every text is keyed by
      a resolved name, and the batch succeeds exactly when every upload is accepted. */
  lemma ResolveTextsCounts(extract: Extractor, uploads: seq<Upload>, tempDir: string)
    ensures ResolveTexts(extract, uploads, tempDir).Ok? <==> forall i :: 0 <= i < |uploads| ==> Accepted(uploads[i])
    ensures ResolveTexts(extract, uploads, tempDir).Ok? ==>
              var (resumes, texts) := ResolveTexts(extract, uploads, tempDir).value;
              && texts.Valid() && texts.Len() <= resumes.Len()
              && forall k :: k in texts.m ==> k in resumes.m
  {
    ProcessOkIff(uploads, tempDir);
    ProcessValid(uploads, tempDir);
    if ProcessUploads(uploads, tempDir).Ok? {
      var resumes := ProcessUploads(uploads, tempDir).value;
      CollectTextsValid(ReaderOf(extract), resumes, |resumes.keys|);
      forall k | k in AllTexts(extract, resumes).m ensures k in resumes.m {
        AllTextsMeaning(extract, resumes, k);
      }
      AllTextsMeaning(extract, resumes, "");
    }
  }
}
