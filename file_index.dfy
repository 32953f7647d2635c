/** The `/api/files` service: profiles read newest first from the store are shaped
    into `{"First Name", "Phone Number", "File Upload"}` entries, by position, by a
    list of positions, or all at once. */
module FileIndex {
  import opened Base
  import opened Text
  import opened JsParseInt
  import opened UriComponent
  import opened BracketStrip

  /** The project URL used when `SUPABASE_URL` is unset or empty. */
  const DefaultSupabaseUrl := "https://lkspowixyoxemnmaetle.supabase.co"

  /** The public-object path of the `user-files` bucket under the project URL. */
  const BucketPath := "/storage/v1/object/public/user-files/"

  /** JavaScript truthiness of a string field: present and not empty. */
  predicate Truthy(v: Option<string>) {
    v.Some? && v.value != ""
  }

  /** `v || ""`. */
  function OrEmpty(v: Option<string>): string {
    if Truthy(v) then v.value else ""
  }

  /** `process.env.SUPABASE_URL || DefaultSupabaseUrl`. */
  function SupabaseUrl(env: Option<string>): (url: string)
    ensures url != ""
    ensures Truthy(env) ==> url == env.value
    ensures !Truthy(env) ==> url == DefaultSupabaseUrl
  {
    if Truthy(env) then env.value else DefaultSupabaseUrl
  }

  /** A `profiles` row as the handlers select it; a missing column value is None. */
  datatype Profile = Profile(userId: Option<string>, firstName: Option<string>,
                             phone: Option<string>, filePath: Option<string>)

  /** One element of the `entries` array: the three keys "First Name", "Phone Number"
      and "File Upload", in that order, each holding a string. */
  datatype Entry = Entry(firstName: string, phoneNumber: string, fileUpload: string)

  /** The public URL prefix of every uploaded file. */
  function PublicBase(supabaseUrl: string): string {
    supabaseUrl + BucketPath
  }

  /** The user-facing name of a stored file: its last path segment without `[n]` groups. */
  function CleanFileName(filePath: string): (name: string)
    ensures '/' !in name
    ensures '/' !in filePath && !HasGroup(filePath) ==> name == filePath
  {
    var last := LastSegment(filePath);
    StripSubMultiset(last);
    assert '/' !in multiset(last);
    StripUnchangedIffNoGroup(last);
    StripGroups(last)
  }

  /** The public URL of a profile's file, when it has both a file path and an owner. */
  function FileUrl(supabaseUrl: string, p: Profile): Option<string> {
    if Truthy(p.filePath) && Truthy(p.userId) then
      Some(PublicBase(supabaseUrl) + p.userId.value + "/" + Encode(CleanFileName(p.filePath.value)))
    else None
  }

  /** The entry of one profile: a falsy field becomes the empty string. */
  function ShapeEntry(supabaseUrl: string, p: Profile): (e: Entry)
    ensures e.firstName == (if Truthy(p.firstName) then p.firstName.value else "")
    ensures e.phoneNumber == (if Truthy(p.phone) then p.phone.value else "")
  {
    Entry(OrEmpty(p.firstName), OrEmpty(p.phone), OrEmpty(FileUrl(supabaseUrl, p)))
  }

  /** "File Upload" is empty exactly when the profile lacks a file path or an owner. */
  lemma FileUploadEmptyIff(supabaseUrl: string, p: Profile)
    ensures ShapeEntry(supabaseUrl, p).fileUpload == "" <==> !(Truthy(p.filePath) && Truthy(p.userId))
  {
    if Truthy(p.filePath) && Truthy(p.userId) {
      assert |PublicBase(supabaseUrl)| > 0;
    }
  }

  /** A non-empty "File Upload" is the bucket URL, the owner, a `/`, and one encoded
      segment that decodes to the file's clean name. */
  lemma FileUploadUrl(supabaseUrl: string, p: Profile)
    requires Truthy(p.filePath) && Truthy(p.userId)
    ensures var url := ShapeEntry(supabaseUrl, p).fileUpload;
      var prefix := PublicBase(supabaseUrl) + p.userId.value + "/";
      && |prefix| <= |url| && url[..|prefix|] == prefix
      && LastSegment(url) == url[|prefix|..]
      && WellFormed(url[|prefix|..])
      && Decode(url[|prefix|..]) == Some(CleanFileName(p.filePath.value))
  {
    var name := CleanFileName(p.filePath.value);
    var enc := Encode(name);
    var dir := PublicBase(supabaseUrl) + p.userId.value;
    var url := dir + "/" + enc;
    assert ShapeEntry(supabaseUrl, p).fileUpload == url;
    assert url[..|dir + "/"|] == dir + "/" && url[|dir + "/"|..] == enc;
    NoSlash(name);
    LastSegmentAfterSlash(dir, enc);
    EncodeWellFormed(name);
    DecodeEncode(name);
  }

  /** An upload named `photo[1].png` under its owner's folder is served as `photo.png`. */
  lemma CounterStrippedFromUrl(supabaseUrl: string, owner: string)
    requires owner != "" && '/' !in owner
    ensures var p := Profile(Some(owner), None, None, Some(owner + "/" + "photo" + "[1]" + ".png"));
      FileUrl(supabaseUrl, p) == Some(PublicBase(supabaseUrl) + owner + "/" + "photo" + ".png")
  {
    var path := owner + "/" + "photo" + "[1]" + ".png";
    var clean := "photo" + ".png";
    PhotoCleaned(owner, path);
    PhotoNeedsNoEscape(clean);
    var base := PublicBase(supabaseUrl) + owner + "/";
    assert base + clean == PublicBase(supabaseUrl) + owner + "/" + "photo" + ".png";
  }

  lemma PhotoCleaned(owner: string, path: string)
    requires '/' !in owner && path == owner + "/" + "photo" + "[1]" + ".png"
    ensures CleanFileName(path) == "photo" + ".png"
  {
    var stem, digits, ext := "photo", "1", ".png";
    var name := stem + "[" + digits + "]" + ext;
    assert path == owner + "/" + name;
    assert '/' !in name;
    LastSegmentAfterSlash(owner, name);
    assert '[' !in stem && '[' !in ext && AllDecimal(digits);
    CounterRemoved(stem, digits, ext);
  }

  lemma PhotoNeedsNoEscape(clean: string)
    requires clean == "photo" + ".png"
    ensures Encode(clean) == clean
  {
    assert forall i :: 0 <= i < |clean| ==> IsUnreserved(clean[i]);
    EncodeIdentity(clean);
  }

  // ---------------------------------------------------------------------------
  // The store

  /** The `profiles` table ordered by `created_at` descending, or a store that fails
      every query. */
  datatype Store = Online(rows: seq<Profile>) | Offline

  /** `.range(from, to)`: the rows at positions `from` to `to` inclusive that exist. */
  function Window(rows: seq<Profile>, from: nat, to: nat): (w: seq<Profile>)
    requires from <= to
    ensures |w| == if from < |rows| then (if to < |rows| then to + 1 else |rows|) - from else 0
    ensures forall k :: 0 <= k < |w| ==> w[k] == rows[from + k]
  {
    if from < |rows| then rows[from..if to < |rows| then to + 1 else |rows|] else []
  }

  /** `.limit(count)`: the first `count` rows, or all when there are fewer. */
  function Limit(rows: seq<Profile>, count: nat): (w: seq<Profile>)
    ensures |w| <= count && |w| <= |rows| && (|w| == count || |w| == |rows|)
    ensures w == rows[..|w|]
  {
    if count < |rows| then rows[..count] else rows
  }

  // ---------------------------------------------------------------------------
  // Responses

  /** A JSON body: `{ entries }`, or `{ success: false, error }`. */
  datatype Body = Entries(entries: seq<Entry>) | Failure(error: string)

  /** What a handler sends: a JSON body with a status, or a redirect. */
  datatype Response = Json(status: nat, body: Body) | Redirect(status: nat, location: string)

  const InvalidIndexMessage := "Invalid index. Must be a non-negative number or \"first\""

  /** The 404 message, with the index printed in decimal. */
  function NotFoundMessage(index: nat): string {
    "Profile at index " + DecimalString(index) + " not found"
  }

  /** The page size of the listing. */
  const ListCeiling := 100

  /** Shape every profile, keeping the order. */
  function ShapeAll(supabaseUrl: string, rows: seq<Profile>): (es: seq<Entry>)
    ensures |es| == |rows|
    ensures forall i :: 0 <= i < |rows| ==> es[i] == ShapeEntry(supabaseUrl, rows[i])
  {
    seq(|rows|, i requires 0 <= i < |rows| => ShapeEntry(supabaseUrl, rows[i]))
  }

  /** `getAllProfiles`: the newest profiles, at most one page of them. */
  function ListAll(supabaseUrl: string, store: Store): Response {
    match store
    case Offline => Json(500, Failure("Failed to list profiles"))
    case Online(rows) => Json(200, Entries(ShapeAll(supabaseUrl, Limit(rows, ListCeiling))))
  }

  /** List-all returns the first profiles of the store in its order, never more than a
      page, and turns a store fault into a 500. */
  lemma ListAllOutcome(supabaseUrl: string, store: Store)
    ensures store.Offline? ==> ListAll(supabaseUrl, store) == Json(500, Failure("Failed to list profiles"))
    ensures store.Online? ==>
      var r := ListAll(supabaseUrl, store);
      && r.Json? && r.status == 200 && r.body.Entries?
      && |r.body.entries| == (if |store.rows| < ListCeiling then |store.rows| else ListCeiling)
      && forall i :: 0 <= i < |r.body.entries| ==>
           r.body.entries[i] == ShapeEntry(supabaseUrl, store.rows[i])
  {
  }

  // ---------------------------------------------------------------------------
  // GET /api/files/:index

  /** The handler of one position. */
  function FileByIndex(supabaseUrl: string, param: string, store: Store): Response {
    if param == "first" then Redirect(302, "/api/files/0")
    else
      var index := ParseInt(param);
      if index.NaN? || index.value < 0 then Json(400, Failure(InvalidIndexMessage))
      else match store
      case Offline => Json(500, Failure("Failed to fetch profile"))
      case Online(rows) =>
        var profiles := Window(rows, index.value, index.value);
        if |profiles| == 0 then Json(404, Failure(NotFoundMessage(index.value)))
        else Json(200, Entries([ShapeEntry(supabaseUrl, profiles[0])]))
  }

  /** A single position answers 400 for a segment that is no number or a negative one,
      404 past the last profile, and otherwise exactly the profile at that offset. */
  lemma FileByIndexOutcome(supabaseUrl: string, param: string, store: Store)
    requires param != "first"
    ensures var r := FileByIndex(supabaseUrl, param, store); var n := ParseInt(param);
      && r.Json?
      && (r.status == 400 <==> n.NaN? || n.value < 0)
      && (n.Int? && n.value >= 0 ==>
            if store.Offline? then r.status == 500
            else if n.value >= |store.rows| then r == Json(404, Failure(NotFoundMessage(n.value)))
            else r == Json(200, Entries([ShapeEntry(supabaseUrl, store.rows[n.value])])))
  {
  }

  // ---------------------------------------------------------------------------
  // GET /api/files/<index>/<index>/...

  /** One path segment as an index: `first` is 0, a number that parseInt reads is
      itself, and a segment that is no number, or a negative one, is dropped. */
  function IndexOf(part: string): Option<nat> {
    if part == "first" then Some(0)
    else match ParseInt(part)
      case NaN => None
      case Int(v) => if v >= 0 then Some(v) else None
  }

  /** The valid indices of the segments, in segment order, duplicates kept. */
  function ValidIndices(parts: seq<string>): (r: seq<nat>)
    ensures forall j :: 0 <= j < |parts| && IndexOf(parts[j]).Some? ==> IndexOf(parts[j]).value in r
    ensures forall i :: i in r ==> exists j :: 0 <= j < |parts| && IndexOf(parts[j]) == Some(i)
  {
    if parts == [] then []
    else
      var rest := ValidIndices(parts[1..]);
      assert forall j :: 1 <= j < |parts| ==> parts[j] == parts[1..][j - 1];
      match IndexOf(parts[0])
      case None => rest
      case Some(i) => [i] + rest
  }

  /** A single segment contributes its index, or nothing when it is not one. */
  lemma ValidIndicesSingle(p: string)
    ensures ValidIndices([p]) == match IndexOf(p) case None => [] case Some(i) => [i]
  {
    assert [p][1..] == [];
  }

  /** The indices keep path order and duplicates: each segment contributes on its own. */
  lemma {:induction false} ValidIndicesAppend(a: seq<string>, b: seq<string>)
    ensures ValidIndices(a + b) == ValidIndices(a) + ValidIndices(b)
    decreases |a|
  {
    if a == [] {
      assert a + b == b;
    } else {
      var ab := a + b;
      assert ab[0] == a[0] && ab[1..] == a[1..] + b;
      ValidIndicesAppend(a[1..], b);
      match IndexOf(a[0])
      case None =>
      case Some(i) =>
        assert ValidIndices(ab) == [i] + ValidIndices(a[1..] + b);
        assert ValidIndices(a) == [i] + ValidIndices(a[1..]);
    }
  }


  predicate Increasing(s: seq<nat>) {
    forall i, j :: 0 <= i < j < |s| ==> s[i] < s[j]
  }

  /** Put `x` into an increasing sequence, once. */
  function Insert(x: nat, s: seq<nat>): (r: seq<nat>)
    requires Increasing(s)
    ensures Increasing(r)
    ensures forall y :: y in r <==> y == x || y in s
  {
    if s == [] then [x]
    else if x < s[0] then [x] + s
    else if x == s[0] then s
    else
      var r := Insert(x, s[1..]);
      assert forall k :: 0 <= k < |s[1..]| ==> s[1..][k] > s[0];
      assert forall k :: 0 <= k < |r| ==> r[k] in r;
      [s[0]] + r
  }

  /** `[...new Set(xs)].sort((a, b) => a - b)`: the distinct values, ascending. */
  function SortedUnique(xs: seq<nat>): (r: seq<nat>)
    ensures Increasing(r)
    ensures forall y :: y in r <==> y in xs
  {
    if xs == [] then [] else Insert(xs[0], SortedUnique(xs[1..]))
  }

  /** An increasing sequence is determined by its elements, so SortedUnique is the
      ascending, duplicate-free listing of the indices whatever their input order. */
  lemma {:induction false} IncreasingUnique(a: seq<nat>, b: seq<nat>)
    requires Increasing(a) && Increasing(b)
    requires forall y :: y in a <==> y in b
    ensures a == b
    decreases |a|
  {
    assert |a| > 0 ==> a[0] in b;
    assert |b| > 0 ==> b[0] in a;
    if a != [] && b != [] {
      assert a[0] == b[0] by {
        assert a[0] in b && b[0] in a;
      }
      forall y ensures y in a[1..] <==> y in b[1..] {
        if y in a[1..] {
          assert y in b && y > a[0];
        }
        if y in b[1..] {
          assert y in a && y > b[0];
        }
      }
      IncreasingUnique(a[1..], b[1..]);
      assert a == [a[0]] + a[1..] && b == [b[0]] + b[1..];
    }
  }

  /** `Math.max(...xs)`. */
  function MaxOf(xs: seq<nat>): (m: nat)
    requires xs != []
    ensures m in xs
    ensures forall x :: x in xs ==> x <= m
  {
    if |xs| == 1 then xs[0]
    else
      var rest := MaxOf(xs[1..]);
      assert forall x :: x in xs ==> x == xs[0] || x in xs[1..];
      if xs[0] > rest then xs[0] else rest
  }

  /** The indices below `n`, in order: `.filter(index => index < profiles.length)`. */
  function InRange(idxs: seq<nat>, n: nat): (r: seq<nat>)
    ensures |r| <= |idxs|
    ensures forall k :: 0 <= k < |r| ==> r[k] < n
    ensures forall y :: y in r <==> y in idxs && y < n
    ensures Increasing(idxs) ==> Increasing(r)
  {
    if idxs == [] then []
    else
      var rest := InRange(idxs[1..], n);
      assert forall y :: y in idxs <==> y == idxs[0] || y in idxs[1..];
      if idxs[0] < n then
        assert Increasing(idxs) ==> forall k :: 0 <= k < |rest| ==> rest[k] in idxs[1..] && rest[k] > idxs[0];
        [idxs[0]] + rest
      else rest
  }

  /** The entries of the profiles at the given in-range positions, in that order. */
  function Project(supabaseUrl: string, rows: seq<Profile>, idxs: seq<nat>): (es: seq<Entry>)
    requires forall k :: 0 <= k < |idxs| ==> idxs[k] < |rows|
    ensures |es| == |idxs|
    ensures forall k :: 0 <= k < |idxs| ==> es[k] == ShapeEntry(supabaseUrl, rows[idxs[k]])
  {
    seq(|idxs|, k requires 0 <= k < |idxs| => ShapeEntry(supabaseUrl, rows[idxs[k]]))
  }

  /** The indices of a batch path: its non-empty segments that read as indices, in
      path order, duplicates kept. */
  function PathIndices(wildcard: string): seq<nat> {
    ValidIndices(NonEmpty(Split(wildcard, '/')))
  }

  /** The requested positions of a batch path: its indices without duplicates, ascending. */
  function Requested(wildcard: string): seq<nat> {
    SortedUnique(PathIndices(wildcard))
  }

  /** The handler of a list of positions. */
  function FilesByIndices(supabaseUrl: string, wildcard: string, store: Store): Response {
    var indices := PathIndices(wildcard);
    if |indices| == 0 then ListAll(supabaseUrl, store)
    else EntriesAt(supabaseUrl, indices, store)
  }

  /** The batch once its segments are indices: one fetch of the prefix up to the
      largest index, then the entries at the distinct indices, ascending. */
  function EntriesAt(supabaseUrl: string, indices: seq<nat>, store: Store): Response
    requires indices != []
  {
    var uniqueIndices := SortedUnique(indices);
    var maxIndex := MaxOf(uniqueIndices);
    match store
    case Offline => Json(500, Failure("Failed to fetch profiles"))
    case Online(rows) =>
      var profiles := Window(rows, 0, maxIndex);
      var kept := InRange(uniqueIndices, |profiles|);
      Json(200, Entries(Project(supabaseUrl, profiles, kept)))
  }

  /** The fetched prefix `range(0, max)` holds every requested position that the
      store holds: cutting at `max` loses no requested profile. */
  lemma {:induction false} PrefixCoversRequested(rows: seq<Profile>, idxs: seq<nat>, max: nat)
    requires forall x :: x in idxs ==> x <= max
    ensures var w := Window(rows, 0, max);
      && InRange(idxs, |w|) == InRange(idxs, |rows|)
      && forall x :: x in idxs && x < |rows| ==> x < |w| && w[x] == rows[x]
    decreases |idxs|
  {
    if idxs != [] {
      assert forall x :: x in idxs[1..] ==> x in idxs;
      PrefixCoversRequested(rows, idxs[1..], max);
      assert idxs[0] in idxs;
    }
  }

  /** With no valid index in the path, the batch route lists everything. */
  lemma BatchFallsBackToListAll(supabaseUrl: string, wildcard: string, store: Store)
    requires Requested(wildcard) == []
    ensures FilesByIndices(supabaseUrl, wildcard, store) == ListAll(supabaseUrl, store)
  {
  }

  /** A batch answers, in ascending order and once each, the entries of the requested
      positions the store holds; positions past the end are dropped without error. */
  lemma EntriesAtOutcome(supabaseUrl: string, indices: seq<nat>, rows: seq<Profile>)
    requires indices != []
    ensures var r := EntriesAt(supabaseUrl, indices, Online(rows));
      var kept := InRange(SortedUnique(indices), |rows|);
      && Increasing(kept)
      && (forall i :: i in kept <==> i in indices && i < |rows|)
      && r.Json? && r.status == 200 && r.body.Entries?
      && |r.body.entries| == |kept| <= |SortedUnique(indices)|
      && forall k :: 0 <= k < |kept| ==> r.body.entries[k] == ShapeEntry(supabaseUrl, rows[kept[k]])
  {
    var uniq := SortedUnique(indices);
    var max := MaxOf(uniq);
    PrefixCoversRequested(rows, uniq, max);
    var w := Window(rows, 0, max);
    var kept := InRange(uniq, |rows|);
    assert forall k :: 0 <= k < |kept| ==> kept[k] in uniq && w[kept[k]] == rows[kept[k]];
  }

  /** The batch route on a path with valid indices answers the entries of the
      requested positions that the store holds, once each and ascending. */
  lemma FilesByIndicesOutcome(supabaseUrl: string, wildcard: string, rows: seq<Profile>)
    requires Requested(wildcard) != []
    ensures FilesByIndices(supabaseUrl, wildcard, Online(rows))
      == Json(200, Entries(Project(supabaseUrl, rows, InRange(Requested(wildcard), |rows|))))
  {
    var indices := PathIndices(wildcard);
    assert Requested(wildcard)[0] in indices;
    EntriesAtOutcome(supabaseUrl, indices, rows);
    var es := EntriesAt(supabaseUrl, indices, Online(rows)).body.entries;
    var kept := InRange(Requested(wildcard), |rows|);
    assert es == Project(supabaseUrl, rows, kept);
  }

  /** A batch's answer on an offline store is a 500 unless it falls back to the listing,
      whose own failure is a 500 too. */
  lemma FilesByIndicesOffline(supabaseUrl: string, wildcard: string)
    ensures FilesByIndices(supabaseUrl, wildcard, Offline).Json?
    ensures FilesByIndices(supabaseUrl, wildcard, Offline).status == 500
  {
  }

  /** Positions 2, 0, 2 and 5 against four profiles give the entries of profiles 0 and 2. */
  lemma BatchExample(supabaseUrl: string, indices: seq<nat>, rows: seq<Profile>)
    requires indices == [2, 0, 2, 5] && |rows| == 4
    ensures EntriesAt(supabaseUrl, indices, Online(rows))
      == Json(200, Entries([ShapeEntry(supabaseUrl, rows[0]), ShapeEntry(supabaseUrl, rows[2])]))
  {
    var uniq := SortedUnique(indices);
    DistinctAscendingExample(indices);
    var max := MaxOf(uniq);
    assert max == 5 by {
      assert 5 in uniq;
      assert max in uniq;
    }
    var w := Window(rows, 0, max);
    assert |w| == 4;
    InRangeExample(uniq, |w|);
    var es := Project(supabaseUrl, w, [0, 2]);
    assert es == [ShapeEntry(supabaseUrl, rows[0]), ShapeEntry(supabaseUrl, rows[2])] by {
      assert es[0] == ShapeEntry(supabaseUrl, w[0]) && w[0] == rows[0];
      assert es[1] == ShapeEntry(supabaseUrl, w[2]) && w[2] == rows[2];
    }
  }

  lemma DistinctAscendingExample(indices: seq<nat>)
    requires indices == [2, 0, 2, 5]
    ensures SortedUnique(indices) == [0, 2, 5]
  {
    IncreasingUnique(SortedUnique(indices), [0, 2, 5]);
  }

  lemma InRangeExample(uniq: seq<nat>, n: nat)
    requires uniq == [0, 2, 5] && n == 4
    ensures InRange(uniq, n) == [0, 2]
  {
    IncreasingUnique(InRange(uniq, n), [0, 2]);
  }

  /** The segments of a batch path, in order: `2/0/2/5` has four. */
  lemma SegmentsExample(wildcard: string)
    requires wildcard == "2" + "/" + "0" + "/" + "2" + "/" + "5"
    ensures NonEmpty(Split(wildcard, '/')) == ["2", "0", "2", "5"]
  {
    var parts := ["2", "0", "2", "5"];
    SplitJoin(parts, '/');
    assert Join(parts, '/') == wildcard;
    assert parts == ["2"] + (["0"] + (["2"] + ["5"]));
    NonEmptySingle("2");
    NonEmptySingle("0");
    NonEmptySingle("5");
    NonEmptyAppend(["2"], ["5"]);
    NonEmptyAppend(["0"], ["2"] + ["5"]);
    NonEmptyAppend(["2"], ["0"] + (["2"] + ["5"]));
  }

  /** The decimal rendering of a position is read back as that position. */
  lemma DecimalIndex(n: nat)
    ensures IndexOf(DecimalString(n)) == Some(n)
  {
    ParseDecimalString(n, []);
    assert DecimalString(n) + [] == DecimalString(n);
    assert DecimalString(n) != "first" by {
      assert "first"[0] == 'f';
    }
  }

  // ---------------------------------------------------------------------------
  // Routing

  /** The route table in registration order, for the path that follows `/api/files`:
      `/:index` (one non-empty segment, a trailing `/` allowed), then the wildcard route (anything
      else behind a `/`), then `/api/files` itself. None: no route of this service. */
  function Dispatch(supabaseUrl: string, rest: string, store: Store): Option<Response> {
    if rest == "" then Some(ListAll(supabaseUrl, store))
    else if rest[0] != '/' then None
    else
      var tail := rest[1..];
      var segment := if tail != [] && tail[|tail| - 1] == '/' then tail[..|tail| - 1] else tail;
      if segment != "" && '/' !in segment then Some(FileByIndex(supabaseUrl, segment, store))
      else Some(FilesByIndices(supabaseUrl, tail, store))
  }

  /** A path of one non-empty segment, with or without a trailing `/`, goes to the
      single-position route with that segment. */
  lemma DispatchOneSegment(supabaseUrl: string, segment: string, store: Store)
    requires segment != "" && '/' !in segment
    ensures Dispatch(supabaseUrl, "/" + segment, store) == Some(FileByIndex(supabaseUrl, segment, store))
    ensures Dispatch(supabaseUrl, "/" + segment + "/", store) == Some(FileByIndex(supabaseUrl, segment, store))
  {
    assert ("/" + segment)[1..] == segment;
    var t := ("/" + segment + "/")[1..];
    assert t == segment + "/";
    assert t[..|t| - 1] == segment;
  }

  /** Any other path behind a `/` goes to the batch route with everything after that `/`. */
  lemma DispatchSeveralSegments(supabaseUrl: string, wildcard: string, store: Store)
    requires var segment := if wildcard != [] && wildcard[|wildcard| - 1] == '/'
      then wildcard[..|wildcard| - 1] else wildcard;
      segment == "" || '/' in segment
    ensures Dispatch(supabaseUrl, "/" + wildcard, store) == Some(FilesByIndices(supabaseUrl, wildcard, store))
  {
    assert ("/" + wildcard)[1..] == wildcard;
  }

  /** `first` redirects to position 0, and following the redirect gives the newest
      profile, or a 404 when the store is empty. */
  lemma FirstIsPositionZero(supabaseUrl: string, rows: seq<Profile>)
    ensures Dispatch(supabaseUrl, "/first", Online(rows)) == Some(Redirect(302, "/api/files/0"))
    ensures Dispatch(supabaseUrl, "/0", Online(rows)) ==
      Some(if rows == [] then Json(404, Failure(NotFoundMessage(0)))
           else Json(200, Entries([ShapeEntry(supabaseUrl, rows[0])])))
  {
    DispatchOneSegment(supabaseUrl, "first", Online(rows));
    assert "/" + "first" == "/first";
    DispatchOneSegment(supabaseUrl, "0", Online(rows));
    assert "/" + "0" == "/0";
    assert DecimalString(0) == "0";
    ZeroIsIndex(supabaseUrl, "0", rows);
  }

  lemma ZeroIsIndex(supabaseUrl: string, zero: string, rows: seq<Profile>)
    requires zero == DecimalString(0)
    ensures FileByIndex(supabaseUrl, zero, Online(rows)) ==
      if rows == [] then Json(404, Failure(NotFoundMessage(0)))
      else Json(200, Entries([ShapeEntry(supabaseUrl, rows[0])]))
  {
    DecimalIndex(0);
    FileByIndexOutcome(supabaseUrl, zero, Online(rows));
  }
}
