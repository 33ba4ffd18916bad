/**
 * The enrollment store and the matcher of `face_utils.py`.
 *
 * A stored embedding array is either 1-D (a single sample) or 2-D (one sample
 * per row). Cosine similarity is a parameter `score`, so no floating-point
 * arithmetic is involved; the encodings folder is an ordered map from file
 * name to file content, in the order `os.listdir` lists it.
 */
module FaceUtils {
  import opened Wrappers
  import opened OrderedMap
  import opened Text

  type StudentId = string
  type Embedding = seq<real>

  /** A NumPy array of embeddings: 1-D (one vector) or 2-D (rows of vectors). */
  datatype NdArray = Vector(v: Embedding) | Matrix(rows: seq<Embedding>)

  /** Similarity between a query and an enrolled sample. */
  type Similarity = (Embedding, Embedding) -> real

  /** The default threshold of `match_embedding_to_db`. */
  const DefaultThreshold: real := 0.40

  /** The starting best score, worse than any cosine similarity. */
  const NoScore: real := -1.0

  /** The sample rows a loop over the array visits; a 1-D array counts as one row. */
  function Rows(a: NdArray): seq<Embedding> {
    match a
    case Vector(v) => [v]
    case Matrix(rows) => rows
  }

  /** `flatten()`: the rows of a 2-D array laid end to end. */
  function Flatten(a: NdArray): Embedding {
    match a
    case Vector(v) => v
    case Matrix(rows) => Concat(rows)
  }

  function Concat(rows: seq<Embedding>): Embedding {
    if rows == [] then [] else Concat(rows[..|rows| - 1]) + rows[|rows| - 1]
  }

  // ---------------------------------------------------------------------------
  // Matching
  // ---------------------------------------------------------------------------

  /** The best candidate so far (`best_id`, `best_score`), and the matcher's answer. */
  datatype Best = Best(id: Option<StudentId>, score: real)

  /** The samples of one student, each tagged with the student's id. */
  function Tag(id: StudentId, rows: seq<Embedding>): (r: seq<(StudentId, Embedding)>)
    ensures |r| == |rows| && forall i :: 0 <= i < |rows| ==> r[i] == (id, rows[i])
  {
    seq(|rows|, i requires 0 <= i < |rows| => (id, rows[i]))
  }

  /** Every (student, sample) pair in the order the nested loop visits them. */
  function Candidates(enrolled: OMap<StudentId, NdArray>): seq<(StudentId, Embedding)> {
    if enrolled == [] then []
    else
      var last := enrolled[|enrolled| - 1];
      Candidates(enrolled[..|enrolled| - 1]) + Tag(last.0, Rows(last.1))
  }

  /** The loop's state after visiting `cands`: a candidate replaces the best only when strictly greater. */
  function Scan(q: Embedding, cands: seq<(StudentId, Embedding)>, score: Similarity): Best {
    if cands == [] then Best(None, NoScore)
    else
      var b := Scan(q, cands[..|cands| - 1], score);
      var c := cands[|cands| - 1];
      if score(q, c.1) > b.score then Best(Some(c.0), score(q, c.1)) else b
  }

  /** The final test against the threshold: below it, the id is dropped but the score is kept. */
  function Classify(b: Best, threshold: real): Best {
    if b.score >= threshold then b else Best(None, b.score)
  }

  /** `match_embedding_to_db(query_emb, enrolled_dict, threshold)`. */
  function Match(queryEmb: NdArray, enrolled: OMap<StudentId, NdArray>, threshold: real, score: Similarity): Best {
    Classify(Scan(Flatten(queryEmb), Candidates(enrolled), score), threshold)
  }

  /** Candidate `i` is a first maximum of `cands` with score `s`: every earlier candidate scores strictly less. */
  predicate FirstMaximumAt(q: Embedding, cands: seq<(StudentId, Embedding)>, score: Similarity, i: int, s: real) {
    0 <= i < |cands| && score(q, cands[i].1) == s &&
    forall j :: 0 <= j < i ==> score(q, cands[j].1) < s
  }

  /**
   * The scan keeps the maximum of -1.0 and all scores; it selects nobody exactly
   * when no score exceeds -1.0; and the one it selects is the first candidate
   * reaching the maximum.
   */
  lemma {:induction false} ScanIsFirstMaximum(q: Embedding, cands: seq<(StudentId, Embedding)>, score: Similarity)
    ensures Scan(q, cands, score).score >= NoScore
    ensures forall i :: 0 <= i < |cands| ==> score(q, cands[i].1) <= Scan(q, cands, score).score
    ensures Scan(q, cands, score).id.None? <==> Scan(q, cands, score).score == NoScore
    ensures Scan(q, cands, score).id.Some? ==>
      exists i :: FirstMaximumAt(q, cands, score, i, Scan(q, cands, score).score) &&
                  cands[i].0 == Scan(q, cands, score).id.value
  {
    if cands != [] {
      var n := |cands| - 1;
      var p := cands[..n];
      ScanIsFirstMaximum(q, p, score);
      var b := Scan(q, p, score);
      assert forall i :: 0 <= i < n ==> cands[i] == p[i];
      if score(q, cands[n].1) > b.score {
        assert FirstMaximumAt(q, cands, score, n, score(q, cands[n].1));
      } else if b.id.Some? {
        var i :| FirstMaximumAt(q, p, score, i, b.score) && p[i].0 == b.id.value;
        assert FirstMaximumAt(q, cands, score, i, b.score);
      }
    }
  }

  /** The pairs the scan visits are exactly the samples of the enrolled students. */
  lemma {:induction false} CandidatesCover(enrolled: OMap<StudentId, NdArray>)
    ensures forall c :: c in Candidates(enrolled) <==>
      exists i :: 0 <= i < |enrolled| && enrolled[i].0 == c.0 && c.1 in Rows(enrolled[i].1)
  {
    if enrolled != [] {
      var n := |enrolled| - 1;
      var p := enrolled[..n];
      CandidatesCover(p);
      var last := Tag(enrolled[n].0, Rows(enrolled[n].1));
      assert Candidates(enrolled) == Candidates(p) + last;
      forall c ensures c in Candidates(enrolled) <==>
        exists i :: 0 <= i < |enrolled| && enrolled[i].0 == c.0 && c.1 in Rows(enrolled[i].1)
      {
        if c in last {
          var k :| 0 <= k < |last| && last[k] == c;
          assert enrolled[n].0 == c.0 && c.1 in Rows(enrolled[n].1);
        }
        if exists i :: 0 <= i < |enrolled| && enrolled[i].0 == c.0 && c.1 in Rows(enrolled[i].1) {
          var i :| 0 <= i < |enrolled| && enrolled[i].0 == c.0 && c.1 in Rows(enrolled[i].1);
          if i == n {
            var k :| 0 <= k < |Rows(enrolled[n].1)| && Rows(enrolled[n].1)[k] == c.1;
            assert last[k] == c;
          } else {
            assert p[i] == enrolled[i];
          }
        }
        if c in Candidates(p) {
          var i :| 0 <= i < |p| && p[i].0 == c.0 && c.1 in Rows(p[i].1);
          assert enrolled[i] == p[i];
        }
      }
    }
  }

  /**
   * What `match_embedding_to_db` returns, in terms of the enrolled samples: the
   * score is the best of -1.0 and every sample's score; an id comes back only
   * when that score reaches the threshold, and it is the id of a student owning
   * a sample with that score; below the threshold the best score is still returned.
   */
  lemma MatchSelectsBest(queryEmb: NdArray, enrolled: OMap<StudentId, NdArray>, threshold: real, score: Similarity)
    ensures var r := Match(queryEmb, enrolled, threshold, score);
      && r.score >= NoScore
      && (forall i, row :: 0 <= i < |enrolled| && row in Rows(enrolled[i].1) ==>
            score(Flatten(queryEmb), row) <= r.score)
      && (r.id.Some? ==>
            (r.score >= threshold && r.score > NoScore &&
             exists i, row :: 0 <= i < |enrolled| && enrolled[i].0 == r.id.value &&
               row in Rows(enrolled[i].1) && score(Flatten(queryEmb), row) == r.score))
      && (r.id.None? ==> r.score < threshold || r.score == NoScore)
  {
    var q, cands := Flatten(queryEmb), Candidates(enrolled);
    ScanIsFirstMaximum(q, cands, score);
    CandidatesCover(enrolled);
    var b := Scan(q, cands, score);
    forall i, row | 0 <= i < |enrolled| && row in Rows(enrolled[i].1) ensures score(q, row) <= b.score {
      assert (enrolled[i].0, row) in cands;
    }
    if b.id.Some? {
      var k :| FirstMaximumAt(q, cands, score, k, b.score) && cands[k].0 == b.id.value;
      assert cands[k] in cands;
    }
  }

  /** An empty directory yields no match with score -1.0, whatever the threshold. */
  lemma MatchEmptyDirectory(queryEmb: NdArray, threshold: real, score: Similarity)
    ensures Match(queryEmb, [], threshold, score) == Best(None, NoScore)
  {
  }

  /** Raising the threshold never turns "no match" into a match, nor changes the match. */
  lemma ThresholdMonotone(queryEmb: NdArray, enrolled: OMap<StudentId, NdArray>, low: real, high: real, score: Similarity)
    requires low <= high
    ensures Match(queryEmb, enrolled, high, score).id.Some? ==>
      Match(queryEmb, enrolled, low, score).id == Match(queryEmb, enrolled, high, score).id
    ensures Match(queryEmb, enrolled, low, score).id.None? ==> Match(queryEmb, enrolled, high, score).id.None?
    ensures Match(queryEmb, enrolled, low, score).score == Match(queryEmb, enrolled, high, score).score
  {
  }

  /** Two directories whose entries have the same ids and sample rows are scanned identically. */
  lemma {:induction false} CandidatesDependOnRows(e1: OMap<StudentId, NdArray>, e2: OMap<StudentId, NdArray>)
    requires |e1| == |e2|
    requires forall i :: 0 <= i < |e1| ==> e1[i].0 == e2[i].0 && Rows(e1[i].1) == Rows(e2[i].1)
    ensures Candidates(e1) == Candidates(e2)
  {
    if e1 != [] {
      var n := |e1| - 1;
      CandidatesDependOnRows(e1[..n], e2[..n]);
    }
  }

  /** A 1-D enrollment is matched exactly as a one-row 2-D enrollment. */
  lemma VectorIsSingleRow(queryEmb: NdArray, enrolled: OMap<StudentId, NdArray>, k: nat, v: Embedding,
                          threshold: real, score: Similarity)
    requires k < |enrolled|
    ensures Match(queryEmb, enrolled[k := (enrolled[k].0, Vector(v))], threshold, score) ==
            Match(queryEmb, enrolled[k := (enrolled[k].0, Matrix([v]))], threshold, score)
  {
    CandidatesDependOnRows(enrolled[k := (enrolled[k].0, Vector(v))], enrolled[k := (enrolled[k].0, Matrix([v]))]);
  }

  /** One more candidate: it becomes the best only when strictly greater. */
  lemma ScanSnoc(q: Embedding, cands: seq<(StudentId, Embedding)>, c: (StudentId, Embedding), score: Similarity)
    ensures Scan(q, cands + [c], score) ==
      if score(q, c.1) > Scan(q, cands, score).score then Best(Some(c.0), score(q, c.1)) else Scan(q, cands, score)
  {
    assert (cands + [c])[..|cands|] == cands;
  }

  lemma TagSnoc(before: seq<(StudentId, Embedding)>, id: StudentId, rows: seq<Embedding>, j: nat)
    requires j < |rows|
    ensures before + Tag(id, rows[..j + 1]) == (before + Tag(id, rows[..j])) + [(id, rows[j])]
  {
  }

  lemma CandidatesSnoc(enrolled: OMap<StudentId, NdArray>, i: nat)
    requires i < |enrolled|
    ensures Candidates(enrolled[..i + 1]) == Candidates(enrolled[..i]) + Tag(enrolled[i].0, Rows(enrolled[i].1))
  {
    assert enrolled[..i + 1][..i] == enrolled[..i];
  }

  /** The nested loop of `match_embedding_to_db`. */
  method MatchEmbedding(queryEmb: NdArray, enrolled: OMap<StudentId, NdArray>, threshold: real, score: Similarity)
    returns (bestId: Option<StudentId>, bestScore: real)
    ensures Best(bestId, bestScore) == Match(queryEmb, enrolled, threshold, score)
  {
    bestId, bestScore := None, NoScore;
    var q := Flatten(queryEmb);
    var i := 0;
    while i < |enrolled|
      invariant 0 <= i <= |enrolled|
      invariant Best(bestId, bestScore) == Scan(q, Candidates(enrolled[..i]), score)
    {
      var studentId := enrolled[i].0;
      var embeddings := Rows(enrolled[i].1);
      ghost var before := Candidates(enrolled[..i]);
      var j := 0;
      assert before + Tag(studentId, embeddings[..0]) == before;
      while j < |embeddings|
        invariant 0 <= j <= |embeddings|
        invariant Best(bestId, bestScore) == Scan(q, before + Tag(studentId, embeddings[..j]), score)
      {
        var s := score(q, embeddings[j]);
        TagSnoc(before, studentId, embeddings, j);
        ScanSnoc(q, before + Tag(studentId, embeddings[..j]), (studentId, embeddings[j]), score);
        if s > bestScore {
          bestScore := s;
          bestId := Some(studentId);
        }
        j := j + 1;
      }
      assert embeddings[..j] == embeddings;
      CandidatesSnoc(enrolled, i);
      i := i + 1;
    }
    assert enrolled[..i] == enrolled;
    if bestScore < threshold {
      bestId := None;
    }
  }

  // ---------------------------------------------------------------------------
  // The enrollment store
  // ---------------------------------------------------------------------------

  /** What a `.npy` file holds: an array `np.load` can read, or something it cannot. */
  datatype FileContent = Npy(data: NdArray) | Unreadable

  const Extension: string := ".npy"

  /** The file holding a student's embeddings, `f"{student_id}.npy"`. */
  function FileName(id: StudentId): string {
    id + Extension
  }

  predicate AllDots(s: string) {
    forall i :: 0 <= i < |s| ==> s[i] == '.'
  }

  /** Index of the last '.', if any. */
  function LastDot(s: string): (r: Option<nat>)
    ensures r.Some? ==> r.value < |s| && s[r.value] == '.' && forall j :: r.value < j < |s| ==> s[j] != '.'
    ensures r.None? ==> forall j :: 0 <= j < |s| ==> s[j] != '.'
  {
    if s == [] then None
    else if s[|s| - 1] == '.' then Some(|s| - 1)
    else LastDot(s[..|s| - 1])
  }

  /**
   * `os.path.splitext(name)[0]`: everything before the last dot, except that
   * dots leading the name do not start an extension (so ".npy" has no extension).
   */
  function Root(name: string): string {
    match LastDot(name)
    case None => name
    case Some(d) => if AllDots(name[..d]) then name else name[..d]
  }

  /**
   * A listed file `load_all_enrollments` keeps: a `.npy` name and a 2-D array.
   * The row normalisation (`norm(..., axis=1)`) raises on a 1-D array, and
   * the exception handler then skips the file, as it skips unreadable ones.
   */
  predicate Loadable(f: (string, FileContent)) {
    EndsWith(f.0, Extension) && f.1.Npy? && f.1.data.Matrix?
  }

  /** The enrolled dict after reading `files` in order: later files with the same key overwrite earlier ones. */
  function Enrollments(files: OMap<string, FileContent>): OMap<StudentId, NdArray> {
    if files == [] then []
    else
      var prev := Enrollments(files[..|files| - 1]);
      var f := files[|files| - 1];
      if Loadable(f) then Put(prev, Root(f.0), (f.1).data) else prev
  }

  /** File `i` is the last loadable `.npy` file whose key is `k`. */
  predicate LastLoadableFor(files: OMap<string, FileContent>, k: StudentId, i: int) {
    0 <= i < |files| && Loadable(files[i]) && Root(files[i].0) == k &&
    forall j :: i < j < |files| && Loadable(files[j]) ==> Root(files[j].0) != k
  }

  /** Reading files one by one keeps the dict's keys distinct. */
  lemma {:induction false} EnrollmentsUnique(files: OMap<string, FileContent>)
    ensures UniqueKeys(Enrollments(files))
  {
    if files != [] {
      EnrollmentsUnique(files[..|files| - 1]);
    }
  }

  /** The keys of the loaded dict are the roots of the loadable `.npy` files. */
  lemma {:induction false} EnrollmentsKeys(files: OMap<string, FileContent>, k: StudentId)
    ensures HasKey(Enrollments(files), k) <==>
      exists i :: 0 <= i < |files| && Loadable(files[i]) && Root(files[i].0) == k
  {
    if files != [] {
      var n := |files| - 1;
      var p := files[..n];
      EnrollmentsKeys(p, k);
      var f := files[n];
      var prev := Enrollments(p);
      if Loadable(f) && Root(f.0) != k {
        PutOther(prev, Root(f.0), f.1.data, k);
      }
      if exists i :: 0 <= i < |files| && Loadable(files[i]) && Root(files[i].0) == k {
        var i :| 0 <= i < |files| && Loadable(files[i]) && Root(files[i].0) == k;
        if i < n {
          assert p[i] == files[i];
        }
      }
      if HasKey(prev, k) {
        var i :| 0 <= i < |p| && Loadable(p[i]) && Root(p[i].0) == k;
        assert files[i] == p[i];
      }
    }
  }

  /**
   * Each key holds the array of the last loadable `.npy` file with that key; a
   * file that ends otherwise, cannot be read or holds a 1-D array is skipped
   * without affecting the rest.
   */
  lemma {:induction false} EnrollmentsLast(files: OMap<string, FileContent>, k: StudentId, i: int)
    requires LastLoadableFor(files, k, i)
    ensures Get(Enrollments(files), k) == Some(files[i].1.data)
  {
    var n := |files| - 1;
    var p := files[..n];
    var f := files[n];
    if i < n {
      assert p[i] == files[i];
      assert LastLoadableFor(p, k, i);
      EnrollmentsLast(p, k, i);
      if Loadable(f) {
        PutOther(Enrollments(p), Root(f.0), f.1.data, k);
      }
    }
  }

  /** A student's file name has the student's id as its key, unless the id is made of dots only. */
  lemma RootOfFileName(id: StudentId)
    ensures EndsWith(FileName(id), Extension)
    ensures Root(FileName(id)) == if AllDots(id) then FileName(id) else id
  {
    var n := FileName(id);
    assert n[|n| - 4..] == Extension;
    assert LastDot(n) == Some(|id|) by {
      assert n[|n| - 1] != '.';
      assert n[..|n| - 1][..|n| - 2] == n[..|n| - 2];
      assert n[..|n| - 2][..|n| - 3] == n[..|n| - 3];
      assert n[..|n| - 3][..|n| - 4] == n[..|n| - 4];
      assert n[..|n| - 3][|n| - 4] == '.';
    }
    assert n[..|id|] == id;
  }

  /** A file named ".npy" is keyed ".npy", not "". */
  lemma DotNpyKeepsItsName()
    ensures Root(".npy") == ".npy"
  {
    assert LastDot(".npy") == Some(0) by {
      assert ".npy"[..3] == ".np";
      assert ".np"[..2] == ".n";
      assert ".n"[..1] == ".";
    }
  }

  /** Only `id + ".npy"` is keyed `id`, for an id that neither is all dots nor ends in ".npy". */
  lemma RootDeterminesFile(name: string, id: StudentId)
    requires EndsWith(name, Extension) && Root(name) == id
    requires !AllDots(id) && !EndsWith(id, Extension)
    ensures name == FileName(id)
  {
    var s := name[..|name| - 4];
    assert name == s + Extension;
    RootOfFileName(s);
    assert FileName(s) == name;
  }

  /** Every row of `a` has `width` entries. */
  predicate HasWidth(a: NdArray, width: nat) {
    forall i :: 0 <= i < |Rows(a)| ==> |Rows(a)[i]| == width
  }

  /** `np.vstack([a, b])` accepts the two arrays: their rows have the same number of columns. */
  predicate Stackable(a: NdArray, b: NdArray) {
    forall i, j :: 0 <= i < |Rows(a)| && 0 <= j < |Rows(b)| ==> |Rows(a)[i]| == |Rows(b)[j]|
  }

  /** The array stored after appending `newEmb` to what the file held (`None`: no file yet). */
  function Appended(existing: Option<NdArray>, newEmb: NdArray): (r: NdArray)
    requires existing.Some? ==> Stackable(existing.value, newEmb)
    ensures r.Matrix?
    ensures existing.None? ==> Rows(r) == Rows(newEmb)
    ensures existing.Some? ==> |Rows(r)| == |Rows(existing.value)| + |Rows(newEmb)|
    ensures existing.Some? ==> Rows(r)[..|Rows(existing.value)|] == Rows(existing.value)
    ensures existing.Some? ==> Rows(r)[|Rows(existing.value)|..] == Rows(newEmb)
    ensures forall width: nat :: HasWidth(newEmb, width) && (existing.Some? ==> HasWidth(existing.value, width)) ==>
              HasWidth(r, width)
  {
    match existing
    case None => Matrix(Rows(newEmb))
    case Some(a) => Matrix(Rows(a) + Rows(newEmb))
  }

  /** Whether `append_embedding_for_student` gets through `np.load` and `np.vstack`. */
  predicate AppendSucceeds(existing: Option<FileContent>, newEmb: NdArray) {
    existing != Some(Unreadable) && (existing.Some? ==> Stackable(existing.value.data, newEmb))
  }

  function ReadableArray(c: Option<FileContent>): Option<NdArray> {
    match c
    case Some(Npy(a)) => Some(a)
    case _ => None
  }

  /** The `encodings` folder: whether it exists, and its `.npy` (and other) files in listing order. */
  class EncodingsFolder {
    var created: bool
    var files: OMap<string, FileContent>

    ghost predicate Valid()
      reads this
    {
      UniqueKeys(files) && (!created ==> files == [])
    }

    constructor (created: bool, files: OMap<string, FileContent>)
      requires UniqueKeys(files) && (!created ==> files == [])
      ensures Valid() && this.created == created && this.files == files
    {
      this.created := created;
      this.files := files;
    }

    /** `load_all_enrollments`: a missing folder is created and yields an empty dict. */
    method LoadAll() returns (enrolled: OMap<StudentId, NdArray>)
      requires Valid()
      modifies this
      ensures Valid() && created && files == old(files)
      ensures enrolled == if old(created) then Enrollments(files) else []
    {
      if !created {
        created := true;
        return [];
      }
      enrolled := [];
      var i := 0;
      while i < |files|
        invariant 0 <= i <= |files|
        invariant enrolled == Enrollments(files[..i])
      {
        var (filename, content) := files[i];
        assert files[..i + 1][..i] == files[..i];
        if EndsWith(filename, Extension) {
          var studentId := Root(filename);
          match content
          case Npy(Matrix(rows)) =>
            enrolled := Put(enrolled, studentId, Matrix(rows));
          case Npy(Vector(_)) =>
          case Unreadable =>
        }
        i := i + 1;
      }
      assert files[..i] == files;
    }

    /**
     * `append_embedding_for_student`: the folder is created if missing; the
     * student's file gets the new rows after its old ones, or is created with
     * the new rows. An existing file that cannot be read, or whose rows are
     * not as wide as the new ones (`np.vstack` raises), makes the call fail
     * and nothing is written.
     */
    method Append(studentId: StudentId, newEmb: NdArray) returns (saved: bool)
      requires Valid()
      modifies this
      ensures Valid() && created
      ensures saved <==> AppendSucceeds(Get(old(files), FileName(studentId)), newEmb)
      ensures saved ==> files == Put(old(files), FileName(studentId),
        Npy(Appended(ReadableArray(Get(old(files), FileName(studentId))), newEmb)))
      ensures !saved ==> files == old(files)
    {
      created := true;
      var filepath := FileName(studentId);
      var existing := Get(files, filepath);
      match existing
      case None =>
        files := Put(files, filepath, Npy(Appended(None, newEmb)));
        saved := true;
      case Some(Npy(existingEmbs)) =>
        if Stackable(existingEmbs, newEmb) {
          files := Put(files, filepath, Npy(Appended(Some(existingEmbs), newEmb)));
          saved := true;
        } else {
          saved := false;
        }
      case Some(Unreadable) =>
        saved := false;
    }
  }

  lemma LoadAfterAppend(files: OMap<string, FileContent>, id: StudentId, stored: NdArray)
    requires UniqueKeys(files) && stored.Matrix?
    requires !AllDots(id) && !EndsWith(id, Extension)
    ensures Get(Enrollments(Put(files, FileName(id), Npy(stored))), id) == Some(stored)
  {
    var files' := Put(files, FileName(id), Npy(stored));
    var k := IndexOf(files', FileName(id));
    RootOfFileName(id);
    forall j | k < j < |files'| && Loadable(files'[j]) ensures Root(files'[j].0) != id {
      if Root(files'[j].0) == id {
        RootDeterminesFile(files'[j].0, id);
      }
    }
    assert files'[k].1 == Npy(stored);
    assert LastLoadableFor(files', id, k);
    EnrollmentsLast(files', id, k);
  }
}
