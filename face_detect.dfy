/**
 * detect_faces of face_detect.py: create the save directory, check that the
 * input is an existing file with an image extension, read it, and write one
 * cropped file per detected face, named after the face's position in the
 * detector's output. The number of faces is returned.
 *
 * The file system is an object whose directories and files the operation
 * changes. A file's content is a decoded pixel grid, or nothing cv2.imread
 * can decode. The Haar cascade is an oracle from the image to its boxes.
 */
module FaceDetect {
  import opened Wrappers
  import opened PathText
  import opened ExtensionFacts
  import Migrator

  type Path = string

  /** One pixel as cv2.imread yields it: its channel values. */
  datatype Pixel = Pixel(channels: seq<int>)

  /** An image as a numpy array: a sequence of rows of pixels. */
  type Grid = seq<seq<Pixel>>

  /** What a regular file holds, as far as cv2.imread is concerned. */
  datatype Content = Raster(pixels: Grid) | Undecodable

  /** One detection (x, y, w, h): column, row, width and height, in pixels. */
  datatype Box = Box(x: nat, y: nat, w: nat, h: nat)

  /** The exception that ends detect_faces early. */
  datatype FaceError =
    | MakeDirsFailed   // os.makedirs raises
    | NotAFile         // the isfile assertion fails
    | BadExtension     // the extension assertion fails
    | DecodeFailed     // cv2.imread returns None and cvtColor raises

  /** The extensions the second assertion accepts. */
  predicate AcceptedExtension(p: Path): (ok: bool)
    ensures ok <==> Migrator.SafeExt(p).Some?
  {
    Extension(p) in {"jpg", "jpeg", "png"}
  }

  /**
   * os.makedirs(d, exist_ok=True) succeeds unless d is empty or names an
   * existing regular file; an existing directory is no error.
   */
  predicate CanMakeDirs(files: map<Path, Content>, d: Path)
  {
    d != [] && d !in files
  }

  function Min(a: int, b: int): int { if a <= b then a else b }

  function Max(a: int, b: int): int { if a <= b then b else a }

  /** Python's s[lo:hi] for non-negative bounds: both ends clipped to the length. */
  function Slice<T>(s: seq<T>, lo: nat, hi: nat): (r: seq<T>)
    ensures |r| == Max(0, Min(hi, |s|) - lo)
    ensures forall i :: 0 <= i < |r| ==> lo + i < |s| && r[i] == s[lo + i]
  {
    if lo >= |s| || hi <= lo then [] else s[lo..Min(hi, |s|)]
  }

  /**
   * image[y:y+h, x:x+w]: the rows y..y+h of the image, each cut to the
   * columns x..x+w, both clipped at the image's edge.
   */
  function Crop(g: Grid, b: Box): (crop: Grid)
    ensures |crop| == Max(0, Min(b.y + b.h, |g|) - b.y)
    ensures forall r :: 0 <= r < |crop| ==> b.y + r < |g| && |crop[r]| == Max(0, Min(b.x + b.w, |g[b.y + r]|) - b.x)
    ensures forall r, c :: 0 <= r < |crop| && 0 <= c < |crop[r]| ==>
      b.y + r < |g| && b.x + c < |g[b.y + r]| && crop[r][c] == g[b.y + r][b.x + c]
  {
    var rows := Slice(g, b.y, b.y + b.h);
    seq(|rows|, r requires 0 <= r < |rows| => Slice(rows[r], b.x, b.x + b.w))
  }

  /** The box lies within the image: its rows exist and each is wide enough. */
  predicate Inside(g: Grid, b: Box)
  {
    b.y + b.h <= |g| && forall r :: b.y <= r < b.y + b.h ==> b.x + b.w <= |g[r]|
  }

  /** A box inside the image is cut out whole: h rows of w pixels, shifted by (y, x). */
  lemma CropInside(g: Grid, b: Box)
    requires Inside(g, b)
    ensures |Crop(g, b)| == b.h
    ensures forall r :: 0 <= r < b.h ==> |Crop(g, b)[r]| == b.w
    ensures forall r, c :: 0 <= r < b.h && 0 <= c < b.w ==> Crop(g, b)[r][c] == g[b.y + r][b.x + c]
  {
    var crop := Crop(g, b);
    forall r | 0 <= r < b.h
      ensures |crop[r]| == b.w
    {
      assert b.y <= b.y + r < b.y + b.h;
    }
  }

  // The names of the face files

  function Digit(d: nat): char
    requires d < 10
  {
    ('0' as int + d) as char
  }

  /** f"{n}" for a non-negative int: its decimal digits, most significant first. */
  function Decimal(n: nat): (s: string)
    ensures |s| >= 1
    ensures forall i :: 0 <= i < |s| ==> '0' <= s[i] <= '9'
    ensures s[0] == '0' ==> s == "0"
  {
    if n < 10 then [Digit(n)] else Decimal(n / 10) + [Digit(n % 10)]
  }

  /** The number a string of decimal digits denotes; the partner of Decimal. */
  function DecimalValue(s: string): nat
    requires forall i :: 0 <= i < |s| ==> '0' <= s[i] <= '9'
  {
    if s == [] then 0
    else DecimalValue(s[..|s| - 1]) * 10 + (s[|s| - 1] as int - '0' as int)
  }

  /** Reading back the digits of n gives n. */
  lemma {:induction false} DecimalRoundTrip(n: nat)
    ensures DecimalValue(Decimal(n)) == n
  {
    if n >= 10 {
      DecimalRoundTrip(n / 10);
      var s := Decimal(n);
      assert s[..|s| - 1] == Decimal(n / 10);
    }
  }

  /** Different numbers are written differently. */
  lemma DecimalInjective(i: nat, j: nat)
    requires Decimal(i) == Decimal(j)
    ensures i == j
  {
    DecimalRoundTrip(i);
    DecimalRoundTrip(j);
  }

  const FacePrefix: string := "/face_"
  const FaceSuffix: string := ".jpg"

  /** f"{save_directory}/face_{i}.jpg" */
  function FaceName(dir: Path, i: nat): (p: Path)
    ensures |dir| + |FaceSuffix| < |p|
    ensures p[..|dir| + 1] == dir + ['/']
    ensures p[|p| - |FaceSuffix|..] == FaceSuffix
  {
    dir + FacePrefix + Decimal(i) + FaceSuffix
  }

  lemma SliceMiddle(a: string, b: string, c: string, d: string)
    ensures (a + b + c + d)[|a| + |b|..|a| + |b| + |c|] == c
  {
    var s := a + b + c + d;
    assert forall k :: 0 <= k < |c| ==> s[|a| + |b| + k] == c[k];
  }

  /** The face files of one run have pairwise distinct names. */
  lemma FaceNamesDistinct(dir: Path, i: nat, j: nat)
    requires i != j
    ensures FaceName(dir, i) != FaceName(dir, j)
  {
    if FaceName(dir, i) == FaceName(dir, j) {
      var di, dj := Decimal(i), Decimal(j);
      assert |di| == |dj|;
      SliceMiddle(dir, FacePrefix, di, FaceSuffix);
      SliceMiddle(dir, FacePrefix, dj, FaceSuffix);
      DecimalInjective(i, j);
    }
  }

  // The files one run writes

  /** The crop of each box, in detector order, as the content saved for it. */
  function Crops(g: Grid, boxes: seq<Box>): (cs: seq<Content>)
    ensures |cs| == |boxes|
    ensures forall i :: 0 <= i < |boxes| ==> cs[i] == Raster(Crop(g, boxes[i]))
  {
    seq(|boxes|, i requires 0 <= i < |boxes| => Raster(Crop(g, boxes[i])))
  }

  /** The files the loop has written after saving `faces`: face_i holds faces[i]. */
  function FaceFiles(dir: Path, faces: seq<Content>): map<Path, Content>
  {
    if faces == [] then map[]
    else
      var n := |faces| - 1;
      FaceFiles(dir, faces[..n])[FaceName(dir, n) := faces[n]]
  }

  /** The written files are exactly the names face_0 .. face_{K-1}. */
  lemma {:induction false} FaceFilesNames(dir: Path, faces: seq<Content>, p: Path)
    ensures p in FaceFiles(dir, faces) <==> exists i :: 0 <= i < |faces| && p == FaceName(dir, i)
  {
    if faces != [] {
      var n := |faces| - 1;
      FaceFilesNames(dir, faces[..n], p);
      if p == FaceName(dir, n) {
        assert 0 <= n < |faces|;
      } else if p in FaceFiles(dir, faces[..n]) {
        var i :| 0 <= i < n && p == FaceName(dir, i);
        assert 0 <= i < |faces|;
      } else {
        forall i | 0 <= i < |faces|
          ensures p != FaceName(dir, i)
        {
          if i < n {
            assert !(0 <= i < n && p == FaceName(dir, i));
          }
        }
      }
    }
  }

  /** face_i holds the i-th saved content, in detector order. */
  lemma {:induction false} FaceFileContent(dir: Path, faces: seq<Content>, i: nat)
    requires i < |faces|
    ensures FaceName(dir, i) in FaceFiles(dir, faces)
    ensures FaceFiles(dir, faces)[FaceName(dir, i)] == faces[i]
  {
    var n := |faces| - 1;
    if i < n {
      FaceFileContent(dir, faces[..n], i);
      FaceNamesDistinct(dir, i, n);
    }
  }

  /** K saved faces give exactly K files. */
  lemma {:induction false} FaceFilesCount(dir: Path, faces: seq<Content>)
    ensures |FaceFiles(dir, faces)| == |faces|
  {
    if faces != [] {
      var n := |faces| - 1;
      FaceFilesCount(dir, faces[..n]);
      var name := FaceName(dir, n);
      FaceFilesNames(dir, faces[..n], name);
      if name in FaceFiles(dir, faces[..n]) {
        var i :| 0 <= i < n && name == FaceName(dir, i);
        FaceNamesDistinct(dir, i, n);
      }
    }
  }

  lemma FaceFilesStep(dir: Path, faces: seq<Content>, i: nat)
    requires i < |faces|
    ensures FaceFiles(dir, faces[..i + 1]) == FaceFiles(dir, faces[..i])[FaceName(dir, i) := faces[i]]
  {
    assert faces[..i + 1][..i] == faces[..i];
  }

  lemma UpdateAfterMerge(m: map<Path, Content>, f: map<Path, Content>, k: Path, v: Content)
    ensures (m + f)[k := v] == m + f[k := v]
  {
  }

  // One run of detect_faces

  /**
   * The result of detect_faces on the file system `files`, its checks in
   * the source's order: makedirs, the isfile assertion, the extension
   * assertion, the decode; then the number of boxes the detector finds.
   */
  function FaceRun(files: map<Path, Content>, imagePath: Path, saveDirectory: Path, detect: Grid -> seq<Box>): (r: Result<nat, FaceError>)
    ensures r == Failure(MakeDirsFailed) <==> !CanMakeDirs(files, saveDirectory)
    ensures CanMakeDirs(files, saveDirectory) && imagePath !in files ==> r == Failure(NotAFile)
    ensures CanMakeDirs(files, saveDirectory) && imagePath in files && !AcceptedExtension(imagePath) ==> r == Failure(BadExtension)
    ensures r.Success? <==>
      CanMakeDirs(files, saveDirectory) && imagePath in files && AcceptedExtension(imagePath) && files[imagePath].Raster?
    ensures r.Success? ==> r.value == |detect(files[imagePath].pixels)|
  {
    if !CanMakeDirs(files, saveDirectory) then Failure(MakeDirsFailed)
    else if imagePath !in files then Failure(NotAFile)
    else if !AcceptedExtension(imagePath) then Failure(BadExtension)
    else match files[imagePath]
      case Undecodable => Failure(DecodeFailed)
      case Raster(g) => Success(|detect(g)|)
  }

  /** The face files a run writes: none unless every check passes. */
  function FaceOutputs(files: map<Path, Content>, imagePath: Path, saveDirectory: Path, detect: Grid -> seq<Box>): map<Path, Content>
  {
    if FaceRun(files, imagePath, saveDirectory, detect).Success? then
      var g := files[imagePath].pixels;
      FaceFiles(saveDirectory, Crops(g, detect(g)))
    else map[]
  }

  /**
   * The count returned is the number of files written; a rejected input
   * writes nothing, and so does an image with no faces.
   */
  lemma RunCountsItsFiles(files: map<Path, Content>, imagePath: Path, saveDirectory: Path, detect: Grid -> seq<Box>)
    ensures FaceRun(files, imagePath, saveDirectory, detect).Failure? ==> FaceOutputs(files, imagePath, saveDirectory, detect) == map[]
    ensures FaceRun(files, imagePath, saveDirectory, detect).Success? ==>
      FaceRun(files, imagePath, saveDirectory, detect).value == |FaceOutputs(files, imagePath, saveDirectory, detect)|
    ensures FaceRun(files, imagePath, saveDirectory, detect) == Success(0) ==> FaceOutputs(files, imagePath, saveDirectory, detect) == map[]
  {
    if FaceRun(files, imagePath, saveDirectory, detect).Success? {
      var g := files[imagePath].pixels;
      FaceFilesCount(saveDirectory, Crops(g, detect(g)));
    }
  }

  lemma Unchanged(files: map<Path, Content>, imagePath: Path, saveDirectory: Path, detect: Grid -> seq<Box>)
    requires FaceRun(files, imagePath, saveDirectory, detect).Failure?
    ensures files + FaceOutputs(files, imagePath, saveDirectory, detect) == files
  {
    assert FaceOutputs(files, imagePath, saveDirectory, detect) == map[];
  }

  /** A file system: its directories and its regular files with their contents. */
  class FileSystem {
    var dirs: set<Path>
    var files: map<Path, Content>

    constructor (dirs: set<Path>, files: map<Path, Content>)
      ensures this.dirs == dirs && this.files == files
    {
      this.dirs := dirs;
      this.files := files;
    }

    /** os.makedirs(d, exist_ok=True); a second call with the same d changes nothing. */
    method MakeDirs(d: Path) returns (ok: bool)
      modifies this
      ensures ok == CanMakeDirs(old(files), d)
      ensures dirs == if ok then old(dirs) + {d} else old(dirs)
      ensures ok ==> d in dirs
      ensures files == old(files)
    {
      ok := CanMakeDirs(files, d);
      if ok {
        dirs := dirs + {d};
      }
    }

    /** face.save(p): the file p now holds the content, replacing any earlier one. */
    method Save(p: Path, c: Content)
      modifies this
      ensures files == old(files)[p := c]
      ensures dirs == old(dirs)
    {
      files := files[p := c];
    }

    /**
     * detect_faces(image_path, save_directory). The save directory is made
     * before either check, so it exists even when the input is rejected.
     */
    method DetectFaces(imagePath: Path, saveDirectory: Path, detect: Grid -> seq<Box>) returns (r: Result<nat, FaceError>)
      modifies this
      ensures r == FaceRun(old(files), imagePath, saveDirectory, detect)
      ensures dirs == if CanMakeDirs(old(files), saveDirectory) then old(dirs) + {saveDirectory} else old(dirs)
      ensures files == old(files) + FaceOutputs(old(files), imagePath, saveDirectory, detect)
    {
      var made := MakeDirs(saveDirectory);
      if !made {
        r := Failure(MakeDirsFailed);
        Unchanged(files, imagePath, saveDirectory, detect);
        return;
      }
      if imagePath !in files {
        r := Failure(NotAFile);
        Unchanged(files, imagePath, saveDirectory, detect);
        return;
      }
      if !AcceptedExtension(imagePath) {
        r := Failure(BadExtension);
        Unchanged(files, imagePath, saveDirectory, detect);
        return;
      }
      var content := files[imagePath];
      if content.Undecodable? {
        r := Failure(DecodeFailed);
        Unchanged(files, imagePath, saveDirectory, detect);
        return;
      }
      var image := content.pixels;
      var faces := detect(image);
      assert FaceOutputs(old(files), imagePath, saveDirectory, detect) == FaceFiles(saveDirectory, Crops(image, faces));
      SaveFaces(saveDirectory, image, faces);
      r := Success(|faces|);
    }

    /** The loop of detect_faces: the crop of box i is saved as face_i, for each box in order. */
    method SaveFaces(saveDirectory: Path, image: Grid, faces: seq<Box>)
      modifies this
      ensures files == old(files) + FaceFiles(saveDirectory, Crops(image, faces))
      ensures dirs == old(dirs)
    {
      ghost var cs := Crops(image, faces);
      var i := 0;
      while i < |faces|
        invariant 0 <= i <= |faces|
        invariant dirs == old(dirs)
        invariant files == old(files) + FaceFiles(saveDirectory, cs[..i])
      {
        FaceFilesStep(saveDirectory, cs, i);
        UpdateAfterMerge(old(files), FaceFiles(saveDirectory, cs[..i]), FaceName(saveDirectory, i), cs[i]);
        Save(FaceName(saveDirectory, i), Raster(Crop(image, faces[i])));
        i := i + 1;
      }
      assert cs[..i] == cs;
    }
  }

  // The extension test

  /**
   * A path whose final component is stem "." e (with something other than
   * dots before that last dot) is accepted exactly when e, lower-cased, is
   * jpg, jpeg or png: X.PNG passes, x.gif does not.
   */
  lemma AcceptedExtensionOfName(stem: string, e: string)
    requires '.' !in e && '/' !in e
    requires HasNonDot(stem, RFind(stem, '/') + 1, |stem|)
    ensures AcceptedExtension(stem + ['.'] + e) <==> Lower(e) in {"jpg", "jpeg", "png"}
  {
    ExtensionOfName(stem, e);
  }

  /** A path whose final component has no dot is rejected. */
  lemma NoDotRejected(p: Path)
    requires '.' !in p[RFind(p, '/') + 1..]
    ensures !AcceptedExtension(p)
  {
    ExtensionWithoutDot(p);
  }

  /** The test ignores letter case. */
  lemma AcceptedIgnoresCase(p: Path)
    ensures AcceptedExtension(Lower(p)) <==> AcceptedExtension(p)
  {
    ExtensionIgnoresCase(p);
  }
}
