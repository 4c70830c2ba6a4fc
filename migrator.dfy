/**
 * The image migrator of transfer_images.py: copy every image listed in a
 * source bucket to a destination bucket under the same key, re-encoded in
 * the format its extension names, skipping images that carry transparency.
 *
 * The S3 service and PIL are oracles: the listing is a value, fetching an
 * object is a function from key to the opened image (or to a failure), and
 * the reply to put_object is a function from key to a status (or to a raised
 * error). The destination bucket is an object whose stored keys the migrator
 * changes.
 */
module Migrator {
  import opened Wrappers
  import opened PathText
  import opened ExtensionFacts

  type Key = string

  /** The formats __get_safe_ext hands to Image.save. */
  datatype Format = JPEG | PNG

  /**
   * What Image.open yields for one object, as far as to_s3 looks at it:
   * the keys of its `info` dictionary, read from the header, and the formats
   * img.save can write it in. Image.open reads only the header; the pixel
   * data is read by img.save, so a body PIL cannot decode, like an RGBA
   * image saved as JPEG, has a format missing from `savable`.
   */
  datatype Image = Image(info: set<string>, savable: set<Format>)

  /** The reply put_object gives: a response with an HTTP status, or a raised error. */
  datatype PutReply = Replied(status: int) | Raised

  /** Why an item ended in the generic `except Exception` handler. */
  datatype ErrorCause = FetchFailed | NameError | EncodeFailed | PutRaised

  /** How the processing of one key ends; each variant is one handler of the loop. */
  datatype Outcome =
    | Transferred(format: Format)
    | Transparent
    | InvalidExtension
    | UploadFailed(bucket: string, status: int)
    | OtherError(cause: ErrorCause)

  /** One line of the batch report: the key, in listing order, and its outcome. */
  datatype Attempt = Attempt(key: Key, outcome: Outcome)

  /** The only status put_object may answer for the item to count as copied. */
  const StatusOk := 200

  /** S3Images.__get_safe_ext: the save format for a key; None where it raises InvalidExtension. */
  function SafeExt(key: Key): Option<Format>
  {
    var ext := Extension(key);
    if ext == "jpg" || ext == "jpeg" then Some(JPEG)
    else if ext == "png" then Some(PNG)
    else None
  }

  /** S3Images.__is_transparent_image's test: the image info has a "transparency" entry. */
  predicate IsTransparent(img: Image)
  {
    "transparency" in img.info
  }

  /**
   * The checks to_s3 makes before put_object, in its order: transparency,
   * then the format from the key's extension, then encoding in that format.
   * Success carries the format the object is written in; Failure the
   * outcome that stops the item.
   */
  function Prepare(img: Image, key: Key): (r: Result<Format, Outcome>)
    ensures IsTransparent(img) ==> r == Failure(Transparent)
    ensures !IsTransparent(img) && SafeExt(key).None? ==> r == Failure(InvalidExtension)
    ensures r.Success? <==> !IsTransparent(img) && SafeExt(key).Some? && SafeExt(key).value in img.savable
    ensures r.Success? ==> Some(r.value) == SafeExt(key)
  {
    if IsTransparent(img) then Failure(Transparent)
    else match SafeExt(key)
      case None => Failure(InvalidExtension)
      case Some(f) => if f in img.savable then Success(f) else Failure(OtherError(EncodeFailed))
  }

  /** Whether processing `key` calls put_object at all. */
  predicate ReachesPut(key: Key, fetched: Option<Image>)
  {
    fetched.Some? && Prepare(fetched.value, key).Success?
  }

  /** The status check after put_object: only an exact 200 counts as copied. */
  function Confirm(f: Format, reply: PutReply, bucket: string): (o: Outcome)
    ensures o.Transferred? <==> reply == Replied(StatusOk)
    ensures o.Transferred? ==> o.format == f
    ensures reply.Replied? && reply.status != StatusOk ==> o == UploadFailed(bucket, reply.status)
  {
    match reply
    case Replied(status) => if status == StatusOk then Transferred(f) else UploadFailed(bucket, status)
    case Raised => OtherError(PutRaised)
  }

  /**
   * The outcome of one iteration of move_images for `key`: from_s3, then
   * to_s3 into `bucket`, every exception caught at the item boundary.
   */
  function ItemOutcome(key: Key, fetched: Option<Image>, reply: PutReply, bucket: string): (o: Outcome)
    ensures fetched.None? ==> o == OtherError(FetchFailed)
    ensures fetched.Some? && IsTransparent(fetched.value) ==> o == Transparent
    ensures fetched.Some? && !IsTransparent(fetched.value) && SafeExt(key).None? ==> o == InvalidExtension
    ensures o.Transferred? <==> ReachesPut(key, fetched) && reply == Replied(StatusOk)
    ensures o.Transferred? ==> SafeExt(key) == Some(o.format)
    ensures o.UploadFailed? ==> ReachesPut(key, fetched) && o.bucket == bucket && reply == Replied(o.status) && o.status != StatusOk
  {
    match fetched
    case None => OtherError(FetchFailed)
    case Some(img) =>
      match Prepare(img, key)
      case Failure(stop) => stop
      case Success(f) => Confirm(f, reply, bucket)
  }

  /** The destination bucket: the objects it holds and the put_object calls it has received. */
  class Bucket {
    const name: string
    var objects: map<Key, Format>
    var puts: seq<Key>

    constructor (name: string, objects: map<Key, Format>)
      ensures this.name == name && this.objects == objects && puts == []
    {
      this.name := name;
      this.objects := objects;
      puts := [];
    }

    /** put_object: the call is recorded; the object is stored only when the service answers 200. */
    method PutObject(key: Key, f: Format, reply: PutReply)
      modifies this
      ensures puts == old(puts) + [key]
      ensures objects == if reply == Replied(StatusOk) then old(objects)[key := f] else old(objects)
    {
      puts := puts + [key];
      if reply == Replied(StatusOk) {
        objects := objects[key := f];
      }
    }
  }

  /**
   * S3Images.to_s3 with the exceptions as outcomes: nothing is put for an
   * image that fails a check, and the object is stored under its own key.
   */
  method ToS3(img: Image, dest: Bucket, key: Key, reply: PutReply) returns (o: Outcome)
    modifies dest
    ensures o == ItemOutcome(key, Some(img), reply, dest.name)
    ensures dest.puts == old(dest.puts) + if ReachesPut(key, Some(img)) then [key] else []
    ensures dest.objects == if o.Transferred? then old(dest.objects)[key := o.format] else old(dest.objects)
  {
    if IsTransparent(img) {
      return Transparent;
    }
    var ext := SafeExt(key);
    if ext.None? {
      return InvalidExtension;
    }
    var f := ext.value;
    if f !in img.savable {
      return OtherError(EncodeFailed);
    }
    dest.PutObject(key, f, reply);
    o := Confirm(f, reply, dest.name);
  }

  /** result.get("Contents", []): a listing without contents lists nothing. */
  function ListedKeys(contents: Option<seq<Key>>): (keys: seq<Key>)
    ensures keys == [] <==> contents == None || contents == Some([])
    ensures contents.Some? ==> keys == contents.value
  {
    match contents
    case None => []
    case Some(keys) => keys
  }

  /** The report of a batch: one attempt per listed key, in listing order. */
  function Report(keys: seq<Key>, fetch: Key -> Option<Image>, reply: Key -> PutReply, bucket: string): seq<Attempt>
  {
    seq(|keys|, i requires 0 <= i < |keys| => Attempt(keys[i], ItemOutcome(keys[i], fetch(keys[i]), reply(keys[i]), bucket)))
  }

  /** The put_object calls a batch makes, in order. */
  function PutsOf(keys: seq<Key>, fetch: Key -> Option<Image>): seq<Key>
  {
    if keys == [] then []
    else
      var last := keys[|keys| - 1];
      PutsOf(keys[..|keys| - 1], fetch) + if ReachesPut(last, fetch(last)) then [last] else []
  }

  /** The destination's objects after the attempts of `report`, starting from `objects`. */
  function Stored(objects: map<Key, Format>, report: seq<Attempt>): map<Key, Format>
  {
    if report == [] then objects
    else
      var last := report[|report| - 1];
      var before := Stored(objects, report[..|report| - 1]);
      match last.outcome
      case Transferred(f) => before[last.key := f]
      case _ => before
  }

  /** How the report and the put calls grow by one key. */
  lemma BatchStep(keys: seq<Key>, i: nat, fetch: Key -> Option<Image>, reply: Key -> PutReply, bucket: string)
    requires i < |keys|
    ensures var key := keys[i];
      && Report(keys[..i + 1], fetch, reply, bucket)
         == Report(keys[..i], fetch, reply, bucket) + [Attempt(key, ItemOutcome(key, fetch(key), reply(key), bucket))]
      && PutsOf(keys[..i + 1], fetch) == PutsOf(keys[..i], fetch) + (if ReachesPut(key, fetch(key)) then [key] else [])
  {
    assert keys[..i + 1][..i] == keys[..i];
  }

  /**
   * move_images: list the source bucket, return at once on an empty listing,
   * otherwise fetch and copy each key in turn; a failure of one key is caught
   * and the loop goes on with the next.
   */
  method MoveImages(contents: Option<seq<Key>>, fetch: Key -> Option<Image>, reply: Key -> PutReply, dest: Bucket)
    returns (report: seq<Attempt>)
    modifies dest
    ensures report == Report(ListedKeys(contents), fetch, reply, dest.name)
    ensures dest.puts == old(dest.puts) + PutsOf(ListedKeys(contents), fetch)
    ensures dest.objects == Stored(old(dest.objects), report)
  {
    var keys := ListedKeys(contents);
    report := [];
    if keys == [] {
      return;
    }
    var i := 0;
    while i < |keys|
      invariant 0 <= i <= |keys|
      invariant report == Report(keys[..i], fetch, reply, dest.name)
      invariant dest.puts == old(dest.puts) + PutsOf(keys[..i], fetch)
      invariant dest.objects == Stored(old(dest.objects), report)
    {
      var key := keys[i];
      var fetched := fetch(key);
      var o;
      if fetched.None? {
        o := OtherError(FetchFailed);
      } else {
        o := ToS3(fetched.value, dest, key, reply(key));
      }
      BatchStep(keys, i, fetch, reply, dest.name);
      assert (report + [Attempt(key, o)])[..|report|] == report;
      report := report + [Attempt(key, o)];
      i := i + 1;
    }
    assert keys[..i] == keys;
  }

  // Properties of the format choice

  /**
   * A key whose final component is stem "." e (with something other than
   * dots before that last dot) maps to JPEG exactly when e is "jpg" or
   * "jpeg" in any letter case, to PNG exactly when e is "png" in any letter
   * case, and raises InvalidExtension otherwise.
   */
  lemma SafeExtOfName(stem: string, e: string)
    requires '.' !in e && '/' !in e
    requires HasNonDot(stem, RFind(stem, '/') + 1, |stem|)
    ensures SafeExt(stem + ['.'] + e) == Some(JPEG) <==> Lower(e) == "jpg" || Lower(e) == "jpeg"
    ensures SafeExt(stem + ['.'] + e) == Some(PNG) <==> Lower(e) == "png"
    ensures SafeExt(stem + ['.'] + e) == None <==> Lower(e) !in {"jpg", "jpeg", "png"}
  {
    ExtensionOfName(stem, e);
  }

  /** A key whose final component has no dot raises InvalidExtension. */
  lemma SafeExtWithoutDot(key: Key)
    requires '.' !in key[RFind(key, '/') + 1..]
    ensures SafeExt(key) == None
  {
    ExtensionWithoutDot(key);
  }

  /** The format does not depend on the letter case of the key. */
  lemma SafeExtIgnoresCase(key: Key)
    ensures SafeExt(Lower(key)) == SafeExt(key)
  {
    ExtensionIgnoresCase(key);
    SameExtensionSameFormat(Lower(key), key);
  }

  /** Keys with the same normalised extension get the same format. */
  lemma SameExtensionSameFormat(a: Key, b: Key)
    requires Extension(a) == Extension(b)
    ensures SafeExt(a) == SafeExt(b)
  {
  }

  /** Only the key's final path component decides the format. */
  lemma SafeExtOfFinalComponent(prefix: string, name: string)
    requires '/' !in name
    ensures SafeExt(prefix + ['/'] + name) == SafeExt(name)
  {
    ExtensionOfFinalComponent(prefix, name);
  }

  // Properties of a batch

  /** Every listed key is attempted, and a key's outcome depends on that key's fetch and put only. */
  lemma EveryKeyAttempted(keys: seq<Key>, fetch: Key -> Option<Image>, reply: Key -> PutReply, bucket: string)
    ensures |Report(keys, fetch, reply, bucket)| == |keys|
    ensures forall i :: 0 <= i < |keys| ==>
      Report(keys, fetch, reply, bucket)[i] == Attempt(keys[i], ItemOutcome(keys[i], fetch(keys[i]), reply(keys[i]), bucket))
  {
  }

  /** Changing what other keys fetch or answer does not change the outcome of key i. */
  lemma NoCrossItemInterference(keys: seq<Key>, i: nat, fetch: Key -> Option<Image>, fetch': Key -> Option<Image>,
                                reply: Key -> PutReply, reply': Key -> PutReply, bucket: string)
    requires i < |keys|
    requires fetch(keys[i]) == fetch'(keys[i]) && reply(keys[i]) == reply'(keys[i])
    ensures Report(keys, fetch, reply, bucket)[i] == Report(keys, fetch', reply', bucket)[i]
  {
  }

  /** A listing without contents, or with none, yields no attempts, no puts and no new objects. */
  lemma EmptyListingDoesNothing(contents: Option<seq<Key>>, objects: map<Key, Format>,
                                fetch: Key -> Option<Image>, reply: Key -> PutReply, bucket: string)
    requires contents == None || contents == Some([])
    ensures Report(ListedKeys(contents), fetch, reply, bucket) == []
    ensures PutsOf(ListedKeys(contents), fetch) == []
    ensures Stored(objects, Report(ListedKeys(contents), fetch, reply, bucket)) == objects
  {
  }

  /**
   * The put calls are the listed keys that pass every check, in listing
   * order: a transparent image, or a key with an invalid extension, is never put.
   */
  lemma PutsOfSpec(keys: seq<Key>, fetch: Key -> Option<Image>)
    ensures |PutsOf(keys, fetch)| <= |keys|
    ensures forall k :: k in PutsOf(keys, fetch) <==> k in keys && ReachesPut(k, fetch(k))
  {
    PutsOfLength(keys, fetch);
    forall k {
      PutsOfAt(keys, fetch, k);
    }
  }

  /** At most one put call per listed key. */
  lemma {:induction false} PutsOfLength(keys: seq<Key>, fetch: Key -> Option<Image>)
    ensures |PutsOf(keys, fetch)| <= |keys|
  {
    if keys != [] {
      PutsOfLength(keys[..|keys| - 1], fetch);
    }
  }

  /** PutsOfSpec for one key. */
  lemma {:induction false} PutsOfAt(keys: seq<Key>, fetch: Key -> Option<Image>, k: Key)
    ensures k in PutsOf(keys, fetch) <==> k in keys && ReachesPut(k, fetch(k))
  {
    if keys != [] {
      var init, last := keys[..|keys| - 1], keys[|keys| - 1];
      PutsOfAt(init, fetch, k);
      assert keys == init + [last];
      assert k in keys <==> k in init || k == last;
      assert PutsOf(keys, fetch) == PutsOf(init, fetch) + if ReachesPut(last, fetch(last)) then [last] else [];
    }
  }

  /** Corollary: no put for a key whose image has transparency or whose extension is invalid. */
  lemma RejectedKeysNeverPut(keys: seq<Key>, fetch: Key -> Option<Image>, k: Key)
    requires k in keys && fetch(k).Some?
    requires IsTransparent(fetch(k).value) || SafeExt(k).None?
    ensures k !in PutsOf(keys, fetch)
  {
    PutsOfSpec(keys, fetch);
  }

  /** Some attempt of `report` copied `k`. */
  predicate Copied(report: seq<Attempt>, k: Key)
  {
    exists i :: 0 <= i < |report| && report[i].key == k && report[i].outcome.Transferred?
  }

  /**
   * A key is stored after the attempts exactly when it was stored before or
   * some attempt copied it; its format is then the one an attempt for it
   * was copied in. A key no attempt copied keeps its object.
   */
  lemma {:induction false} StoredAt(objects: map<Key, Format>, report: seq<Attempt>, k: Key)
    ensures k in Stored(objects, report) <==> k in objects || Copied(report, k)
    ensures Copied(report, k) ==>
      exists i :: 0 <= i < |report| && report[i].key == k && report[i].outcome == Transferred(Stored(objects, report)[k])
    ensures k in objects && !Copied(report, k) ==> Stored(objects, report)[k] == objects[k]
  {
    if report != [] {
      var n := |report| - 1;
      var init, last := report[..n], report[n];
      StoredAt(objects, init, k);
      assert forall i :: 0 <= i < n ==> init[i] == report[i];
      if Copied(report, k) && !(last.key == k && last.outcome.Transferred?) {
        var i :| 0 <= i < |report| && report[i].key == k && report[i].outcome.Transferred?;
        assert i < n;
        assert Copied(init, k);
      }
    }
  }

  /**
   * After a batch the destination holds the objects it held before plus
   * every listed key whose outcome is Transferred, under that same key and
   * in the format its extension names; every other object is unchanged.
   */
  lemma StoredSpec(objects: map<Key, Format>, keys: seq<Key>, fetch: Key -> Option<Image>,
                   reply: Key -> PutReply, bucket: string, k: Key)
    ensures k in Stored(objects, Report(keys, fetch, reply, bucket)) <==>
      k in objects || (k in keys && ItemOutcome(k, fetch(k), reply(k), bucket).Transferred?)
    ensures k in keys && ItemOutcome(k, fetch(k), reply(k), bucket).Transferred? ==>
      Some(Stored(objects, Report(keys, fetch, reply, bucket))[k]) == SafeExt(k)
    ensures k in objects && !(k in keys && ItemOutcome(k, fetch(k), reply(k), bucket).Transferred?) ==>
      Stored(objects, Report(keys, fetch, reply, bucket))[k] == objects[k]
  {
    var report := Report(keys, fetch, reply, bucket);
    var o := ItemOutcome(k, fetch(k), reply(k), bucket);
    EveryKeyAttempted(keys, fetch, reply, bucket);
    StoredAt(objects, report, k);
    if k in keys && o.Transferred? {
      var j :| 0 <= j < |keys| && keys[j] == k;
      assert report[j].key == k && report[j].outcome.Transferred?;
    }
    if Copied(report, k) {
      var i :| 0 <= i < |report| && report[i].key == k && report[i].outcome == Transferred(Stored(objects, report)[k]);
      assert keys[i] == k;
    }
  }

  // The migrator as written (see the Findings in README.md)

  /**
   * to_s3's checks as written: __is_transparent_image writes `image_file`,
   * a name not in its scope, so a transparent image raises NameError, which
   * only the generic handler of move_images catches.
   */
  function PrepareAsWritten(img: Image, key: Key): (r: Result<Format, Outcome>)
    ensures r != Prepare(img, key) <==> IsTransparent(img)
    ensures r.Success? <==> Prepare(img, key).Success?
  {
    if IsTransparent(img) then Failure(OtherError(NameError)) else Prepare(img, key)
  }

  /** One iteration of move_images as written. */
  function ItemOutcomeAsWritten(key: Key, fetched: Option<Image>, reply: PutReply, bucket: string): (o: Outcome)
    ensures o != ItemOutcome(key, fetched, reply, bucket) <==> fetched.Some? && IsTransparent(fetched.value)
    ensures o.Transferred? <==> ItemOutcome(key, fetched, reply, bucket).Transferred?
  {
    match fetched
    case None => OtherError(FetchFailed)
    case Some(img) =>
      match PrepareAsWritten(img, key)
      case Failure(stop) => stop
      case Success(f) => Confirm(f, reply, bucket)
  }

  /**
   * As written, a transparent image ends in the generic handler, not as
   * TransparentImage; in both versions it never reaches put_object.
   */
  lemma TransparencyRaisesNameError(key: Key, img: Image, reply: PutReply, bucket: string)
    requires IsTransparent(img)
    ensures ItemOutcomeAsWritten(key, Some(img), reply, bucket) == OtherError(NameError)
    ensures ItemOutcome(key, Some(img), reply, bucket) == Transparent
    ensures PrepareAsWritten(img, key).Failure? && !ReachesPut(key, Some(img))
  {
  }

  /** How a run of move_images ends: after the last key, or by an exception out of the loop. */
  datatype RunEnd = Completed(report: seq<Attempt>) | Aborted(report: seq<Attempt>)

  function Prefixed(a: Attempt, run: RunEnd): RunEnd
  {
    match run
    case Completed(r) => Completed([a] + r)
    case Aborted(r) => Aborted([a] + r)
  }

  /**
   * The loop of move_images as written: `img.close()` sits after the
   * try/except, so when from_s3 fails before any image was bound to `img`
   * the close raises UnboundLocalError and ends the run. `bound` says
   * whether an earlier iteration bound `img`.
   */
  function RunAsWritten(keys: seq<Key>, fetch: Key -> Option<Image>, reply: Key -> PutReply, bucket: string, bound: bool): (run: RunEnd)
    ensures |run.report| <= |keys|
    ensures forall i :: 0 <= i < |run.report| ==>
      run.report[i] == Attempt(keys[i], ItemOutcomeAsWritten(keys[i], fetch(keys[i]), reply(keys[i]), bucket))
    ensures run.Aborted? ==> run.report != [] && fetch(run.report[|run.report| - 1].key).None?
    decreases |keys|
  {
    if keys == [] then Completed([])
    else
      var key := keys[0];
      var a := Attempt(key, ItemOutcomeAsWritten(key, fetch(key), reply(key), bucket));
      if !bound && fetch(key).None? then Aborted([a])
      else Prefixed(a, RunAsWritten(keys[1..], fetch, reply, bucket, true))
  }

  /** Once `img` is bound, the loop as written attempts every remaining key in order. */
  lemma {:induction false} BoundRunCompletes(keys: seq<Key>, fetch: Key -> Option<Image>, reply: Key -> PutReply, bucket: string)
    ensures RunAsWritten(keys, fetch, reply, bucket, true).Completed?
    ensures |RunAsWritten(keys, fetch, reply, bucket, true).report| == |keys|
    ensures forall i :: 0 <= i < |keys| ==> RunAsWritten(keys, fetch, reply, bucket, true).report[i].key == keys[i]
    decreases |keys|
  {
    if keys != [] {
      BoundRunCompletes(keys[1..], fetch, reply, bucket);
    }
  }

  /**
   * The run as written aborts exactly when fetching the first listed key
   * fails; otherwise it attempts every key in listing order.
   */
  lemma RunAsWrittenAbortsOnFirstFetch(keys: seq<Key>, fetch: Key -> Option<Image>, reply: Key -> PutReply, bucket: string)
    ensures RunAsWritten(keys, fetch, reply, bucket, false).Aborted? <==> keys != [] && fetch(keys[0]).None?
    ensures RunAsWritten(keys, fetch, reply, bucket, false).Aborted? ==>
      RunAsWritten(keys, fetch, reply, bucket, false).report == [Attempt(keys[0], OtherError(FetchFailed))]
    ensures RunAsWritten(keys, fetch, reply, bucket, false).Completed? ==>
      |RunAsWritten(keys, fetch, reply, bucket, false).report| == |keys|
  {
    if keys != [] && fetch(keys[0]).Some? {
      BoundRunCompletes(keys[1..], fetch, reply, bucket);
    }
  }

  /**
   * The input that shows it: two keys, the first of which cannot be
   * fetched. As written the second key is never attempted; the corrected
   * batch attempts both.
   */
  lemma FirstFetchFailureSkipsRest(a: Key, b: Key, fetch: Key -> Option<Image>, reply: Key -> PutReply, bucket: string)
    requires fetch(a).None?
    ensures RunAsWritten([a, b], fetch, reply, bucket, false) == Aborted([Attempt(a, OtherError(FetchFailed))])
    ensures |Report([a, b], fetch, reply, bucket)| == 2 && Report([a, b], fetch, reply, bucket)[1].key == b
  {
  }
}
