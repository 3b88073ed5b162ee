/**
 * The equipment aggregation of detectGymEquipment (functions/index.js:66-121):
 * every photo's reply is parsed, the names are canonicalised and collected in
 * an insertion-ordered set, and a non-empty set is merged into the location's
 * stored equipment with arrayUnion. Downloading the photos and calling the
 * vision model are outside the model: their outcome for each photo is given
 * as a PhotoResult.
 */
module EquipmentDetection {
  import opened Wrappers
  import opened JsBuiltins
  import opened InsertionOrder
  import opened EquipmentParser

  /** What the loop body sees for one photo: the model's reply with the outcome
      of JSON.parse on it, or a failure of the download or of the model call. */
  datatype PhotoResult =
    | Answered(content: string, decoded: JsonParse)
    | Failed

  /** What detectGymEquipment returns, or the internal error it throws. */
  datatype Response =
    | NoPhotosToAnalyze
    | Success(detectedEquipment: seq<string>)
    | InternalError

  /** The canonical form of a name at functions/index.js:105: lower-cased, then
      trimmed. */
  function Canonical(item: string): (r: string)
    ensures IsLowerCase(r) && IsTrimmed(r)
    ensures r == Lower(Trim(item))
  {
    LowerTrimCommute(item);
    Trim(Lower(item))
  }

  /** What the forEach callback (functions/index.js:104-106) adds for one array
      element: nothing for a falsy one (the empty string included), its
      canonical form for a non-empty string, and None when toLowerCase throws
      because the element is a truthy value that is not a string. */
  function ElementNames(e: Element): Option<seq<string>> {
    match e
    case Text(s) => if s == "" then Some([]) else Some([Canonical(s)])
    case FalsyOther => Some([])
    case TruthyOther => None
  }

  /** The pieces one after the other; None if any piece is None. */
  function Concat<T>(parts: seq<Option<seq<T>>>): Option<seq<T>>
    decreases |parts|
  {
    if parts == [] then
      Some([])
    else
      match Concat(parts[..|parts| - 1])
      case None => None
      case Some(init) =>
        match parts[|parts| - 1]
        case None => None
        case Some(last) => Some(init + last)
  }

  /** The names one reply adds, in order, before de-duplication. */
  function ReplyNames(items: seq<Element>): Option<seq<string>> {
    Concat(Map(ElementNames, items))
  }

  /** The names one photo adds; None if its processing throws. */
  function PhotoNames(photo: PhotoResult): Option<seq<string>> {
    match photo
    case Failed => None
    case Answered(content, decoded) => ReplyNames(ParseEquipment(content, decoded))
  }

  /** The names of all photos in order, before de-duplication; None if any
      photo's processing throws. */
  function ScanNames(photos: seq<PhotoResult>): Option<seq<string>> {
    Concat(Map(PhotoNames, photos))
  }

  /** Array.from(equipmentSet) after the loop, or None if the loop throws. */
  function Detected(photos: seq<PhotoResult>): Option<seq<string>> {
    match ScanNames(photos)
    case None => None
    case Some(names) => Some(AppendAll([], names))
  }

  /** The result of detectGymEquipment for the given photos. */
  function ScanResponse(photos: seq<PhotoResult>): Response {
    if photos == [] then
      NoPhotosToAnalyze
    else
      match Detected(photos)
      case None => InternalError
      case Some(d) => Success(d)
  }

  /** Whether the location document is updated (functions/index.js:111). */
  predicate Updates(photos: seq<PhotoResult>) {
    Detected(photos).Some? && Detected(photos).value != []
  }

  /** The stored equipment after one scan. */
  function StoredAfterScan(stored: seq<string>, photos: seq<PhotoResult>): seq<string> {
    if Updates(photos) then AppendAll(stored, Detected(photos).value) else stored
  }

  // ---------------------------------------------------------------------------
  // The state the source updates in place

  /** The stored location document, as far as equipment detection touches it. */
  class Location {
    var equipment: seq<string>
    var lastEquipmentScanTime: Option<int>

    constructor (equipment: seq<string>)
      ensures this.equipment == equipment && lastEquipmentScanTime == None
    {
      this.equipment := equipment;
      lastEquipmentScanTime := None;
    }

    /** arrayUnion of the detected names into equipment, with the scan time
        (functions/index.js:112-115). */
    method Merge(detected: seq<string>, now: int)
      modifies this
      ensures equipment == AppendAll(old(equipment), detected)
      ensures lastEquipmentScanTime == Some(now)
    {
      equipment := AppendAll(equipment, detected);
      lastEquipmentScanTime := Some(now);
    }

    /** detectGymEquipment for this location, whose photos had the given
        outcomes; now is the server time of the update. */
    method DetectGymEquipment(photos: seq<PhotoResult>, now: int) returns (r: Response)
      modifies this
      ensures r == ScanResponse(photos)
      ensures equipment == StoredAfterScan(old(equipment), photos)
      ensures lastEquipmentScanTime == if Updates(photos) then Some(now) else old(lastEquipmentScanTime)
    {
      if |photos| == 0 {
        return NoPhotosToAnalyze;
      }
      var detected := CollectEquipment(photos);
      if detected.None? {
        return InternalError;
      }
      var uniqueEquipment := detected.value;
      if |uniqueEquipment| > 0 {
        Merge(uniqueEquipment, now);
      }
      return Success(uniqueEquipment);
    }
  }

  /** The loop over the photos (functions/index.js:73-110): the insertion-ordered
      set of canonical names, or None as soon as one photo's processing throws. */
  method CollectEquipment(photos: seq<PhotoResult>) returns (r: Option<seq<string>>)
    ensures r == Detected(photos)
  {
    var equipmentSet: seq<string> := [];
    ghost var names: seq<string> := [];
    var i := 0;
    while i < |photos|
      invariant 0 <= i <= |photos|
      invariant ScanNames(photos[..i]) == Some(names)
      invariant equipmentSet == AppendAll([], names)
    {
      ConcatStep(PhotoNames, photos, i);
      if photos[i].Failed? {
        ConcatAborts(PhotoNames, photos, i);
        return None;
      }
      var equipment := ParseEquipment(photos[i].content, photos[i].decoded);
      var added := AddReplyNames(equipmentSet, equipment);
      if added.None? {
        ConcatAborts(PhotoNames, photos, i);
        return None;
      }
      ghost var more := ReplyNames(equipment).value;
      AppendAllConcat([], names, more);
      equipmentSet := added.value;
      names := names + more;
      i := i + 1;
    }
    assert photos[..i] == photos;
    return Some(equipmentSet);
  }

  /** The forEach loop of functions/index.js:104-106: it adds the canonical form
      of each truthy element to the set, or is None when the callback throws. */
  method AddReplyNames(equipmentSet: seq<string>, items: seq<Element>) returns (r: Option<seq<string>>)
    ensures r == match ReplyNames(items)
      case None => None
      case Some(names) => Some(AppendAll(equipmentSet, names))
  {
    var current := equipmentSet;
    ghost var names: seq<string> := [];
    var j := 0;
    while j < |items|
      invariant 0 <= j <= |items|
      invariant ReplyNames(items[..j]) == Some(names)
      invariant current == AppendAll(equipmentSet, names)
    {
      ConcatStep(ElementNames, items, j);
      var item := items[j];
      if item.TruthyOther? {
        ConcatAborts(ElementNames, items, j);
        return None;
      }
      if item.Text? && item.text != "" {
        var name := Canonical(item.text);
        assert (names + [name])[..|names|] == names;
        current := Add(current, name);
        names := names + [name];
      } else {
        assert names + [] == names;
      }
      j := j + 1;
    }
    assert items[..j] == items;
    return Some(current);
  }

  // ---------------------------------------------------------------------------
  // Lemmas about Concat

  /** One more input extends the concatenation of the pieces of a prefix. */
  lemma ConcatStep<A, T>(f: A -> Option<seq<T>>, s: seq<A>, i: nat)
    requires i < |s|
    ensures Concat(Map(f, s[..i + 1])) == match Concat(Map(f, s[..i]))
      case None => None
      case Some(init) => (match f(s[i]) case None => None case Some(last) => Some(init + last))
  {
    assert Map(f, s[..i + 1])[..i] == Map(f, s[..i]);
  }

  lemma ConcatSingle<T>(p: seq<T>)
    ensures Concat([Some(p)]) == Some(p)
  {
    assert [Some(p)][..0] == [];
    assert Concat([Some(p)][..0]) == Some([]);
    assert [] + p == p;
  }

  lemma ConcatPair<T>(p: seq<T>, q: seq<T>)
    ensures Concat([Some(p), Some(q)]) == Some(p + q)
  {
    assert [Some(p), Some(q)][..1] == [Some(p)];
    ConcatSingle(p);
  }

  /** The concatenation fails exactly when some piece is missing. */
  lemma {:induction false} ConcatNone<T>(parts: seq<Option<seq<T>>>)
    ensures Concat(parts).None? <==> exists k :: 0 <= k < |parts| && parts[k].None?
    decreases |parts|
  {
    if parts != [] {
      var init := parts[..|parts| - 1];
      ConcatNone(init);
      assert forall k :: 0 <= k < |init| ==> init[k] == parts[k];
    }
  }

  /** A missing piece makes the whole concatenation fail. */
  lemma ConcatAborts<A, T>(f: A -> Option<seq<T>>, s: seq<A>, i: nat)
    requires i < |s| && f(s[i]).None?
    ensures Concat(Map(f, s)).None?
  {
    assert Map(f, s)[i].None?;
    ConcatNone(Map(f, s));
  }

  /** An element is in the concatenation exactly when it is in one of the pieces. */
  lemma {:induction false} ConcatMembers<T>(parts: seq<Option<seq<T>>>)
    requires Concat(parts).Some?
    ensures forall x :: x in Concat(parts).value <==>
      exists k :: 0 <= k < |parts| && parts[k].Some? && x in parts[k].value
    decreases |parts|
  {
    if parts != [] {
      var init := parts[..|parts| - 1];
      ConcatMembers(init);
      assert forall k :: 0 <= k < |init| ==> init[k] == parts[k];
    }
  }

  // ---------------------------------------------------------------------------
  // What a scan detects

  /** Processing the photo throws: its download or model call fails, or its
      reply is an array holding a truthy value that is not a string. */
  ghost predicate PhotoThrows(photo: PhotoResult) {
    photo.Failed? || TruthyOther in ParseEquipment(photo.content, photo.decoded)
  }

  /** Some non-empty string in the photo's parsed reply canonicalises to x. */
  ghost predicate PhotoMentions(photo: PhotoResult, x: string) {
    && photo.Answered?
    && exists e :: e in ParseEquipment(photo.content, photo.decoded) && ElementMentions(e, x)
  }

  /** The array element e is a non-empty string whose canonical form is x. */
  ghost predicate ElementMentions(e: Element, x: string) {
    e.Text? && e.text != "" && Canonical(e.text) == x
  }

  /** The pieces of an element, one element at a time. */
  lemma ElementNamesCases(e: Element)
    ensures ElementNames(e).None? <==> e == TruthyOther
    ensures ElementNames(e).Some? ==> forall x :: x in ElementNames(e).value <==> ElementMentions(e, x)
  {
  }

  /** A reply's callback throws exactly when some element is a truthy non-string. */
  lemma ReplyNamesNone(items: seq<Element>)
    ensures ReplyNames(items).None? <==> TruthyOther in items
  {
    var parts := Map(ElementNames, items);
    ConcatNone(parts);
    forall k | 0 <= k < |items|
      ensures parts[k].None? <==> items[k] == TruthyOther
    {
      ElementNamesCases(items[k]);
    }
  }

  /** The names of a reply are the canonical forms of its non-empty strings. */
  lemma ReplyNamesMembers(items: seq<Element>)
    requires ReplyNames(items).Some?
    ensures forall x :: x in ReplyNames(items).value <==> exists e :: e in items && ElementMentions(e, x)
  {
    var parts := Map(ElementNames, items);
    var names := ReplyNames(items).value;
    ConcatMembers(parts);
    forall x | x in names
      ensures exists e :: e in items && ElementMentions(e, x)
    {
      var k :| 0 <= k < |parts| && parts[k].Some? && x in parts[k].value;
      ElementNamesCases(items[k]);
      assert items[k] in items;
    }
    forall x, e | e in items && ElementMentions(e, x)
      ensures x in names
    {
      var k :| 0 <= k < |items| && items[k] == e;
      ElementNamesCases(e);
      assert parts[k] == ElementNames(e);
    }
  }

  /** A scan throws exactly when the processing of some photo throws. */
  lemma ScanNamesNone(photos: seq<PhotoResult>)
    ensures ScanNames(photos).None? <==> exists i :: 0 <= i < |photos| && PhotoThrows(photos[i])
  {
    var parts := Map(PhotoNames, photos);
    ConcatNone(parts);
    forall i | 0 <= i < |photos|
      ensures parts[i].None? <==> PhotoThrows(photos[i])
    {
      assert parts[i] == PhotoNames(photos[i]);
      if photos[i].Answered? {
        ReplyNamesNone(ParseEquipment(photos[i].content, photos[i].decoded));
      }
    }
  }

  lemma ScanNamesMembers(photos: seq<PhotoResult>)
    requires ScanNames(photos).Some?
    ensures forall x :: x in ScanNames(photos).value <==>
      exists i :: 0 <= i < |photos| && PhotoMentions(photos[i], x)
  {
    var parts := Map(PhotoNames, photos);
    ConcatMembers(parts);
    ConcatNone(parts);
    forall i | 0 <= i < |photos|
      ensures parts[i].Some? && forall x :: x in parts[i].value <==> PhotoMentions(photos[i], x)
    {
      assert parts[i].Some?;
      ReplyNamesMembers(ParseEquipment(photos[i].content, photos[i].decoded));
    }
  }

  /** The detected equipment is the set of canonical forms of the non-empty
      strings in all replies, without repetitions and in the order each name was
      first seen; it is absent exactly when some photo's processing throws. */
  lemma DetectedEquipment(photos: seq<PhotoResult>)
    ensures Detected(photos).None? <==> exists i :: 0 <= i < |photos| && PhotoThrows(photos[i])
    ensures Detected(photos).Some? ==>
      var d := Detected(photos).value;
      && NoDuplicates(d)
      && (forall x :: x in d <==> exists i :: 0 <= i < |photos| && PhotoMentions(photos[i], x))
      && InFirstSeenOrder(d, ScanNames(photos).value)
  {
    ScanNamesNone(photos);
    if ScanNames(photos).Some? {
      ScanNamesMembers(photos);
      AppendAllFirstSeenOrder(ScanNames(photos).value);
    }
  }

  /** The order of the photos does not change which names are detected, nor
      whether the scan throws. */
  lemma DetectedOrderIndependent(p: seq<PhotoResult>, q: seq<PhotoResult>)
    requires multiset(p) == multiset(q)
    ensures Detected(p).None? <==> Detected(q).None?
    ensures Detected(p).Some? && Detected(q).Some? ==>
      forall x :: x in Detected(p).value <==> x in Detected(q).value
  {
    DetectedEquipment(p);
    DetectedEquipment(q);
    assert forall photo :: photo in p <==> photo in q by {
      forall photo ensures photo in p <==> photo in q {
        assert photo in p <==> photo in multiset(p);
        assert photo in q <==> photo in multiset(q);
      }
    }
    forall i | 0 <= i < |p| ensures exists j :: 0 <= j < |q| && q[j] == p[i] {
      assert p[i] in q;
    }
    forall j | 0 <= j < |q| ensures exists i :: 0 <= i < |p| && p[i] == q[j] {
      assert q[j] in p;
    }
  }

  // ---------------------------------------------------------------------------
  // Canonical names

  /** A name that is lower-case and trimmed already is its own canonical form. */
  lemma CanonicalFixedPoint(s: string)
    requires IsLowerCase(s) && IsTrimmed(s)
    ensures Canonical(s) == s
  {
    TrimIdempotent(s);
  }

  /** Canonicalising twice is canonicalising once. */
  lemma CanonicalIdempotent(s: string)
    ensures Canonical(Canonical(s)) == Canonical(s)
  {
    CanonicalFixedPoint(Canonical(s));
  }

  /** Strings that are canonical already pass the callback unchanged; only
      the empty ones are dropped. */
  lemma {:induction false} CanonicalTexts(items: seq<Element>, names: seq<string>)
    requires |items| == |names|
    requires forall k :: 0 <= k < |items| ==> items[k] == Text(names[k])
    requires forall k :: 0 <= k < |names| ==> IsLowerCase(names[k]) && IsTrimmed(names[k])
    ensures ReplyNames(items) == Some(Filter(NonEmpty, names))
    decreases |items|
  {
    if items != [] {
      var n := |items| - 1;
      var init, last := names[..n], names[n];
      CanonicalTexts(items[..n], init);
      ConcatStep(ElementNames, items, n);
      assert items[..n + 1] == items;
      assert names == init + [last];
      FilterConcat(NonEmpty, init, [last]);
      LastName(last);
    }
  }

  lemma LastName(last: string)
    requires IsLowerCase(last) && IsTrimmed(last)
    ensures ElementNames(Text(last)) == Some(Filter(NonEmpty, [last]))
  {
    assert [last][1..] == [];
    assert Filter(NonEmpty, []) == [];
    if last != "" {
      CanonicalFixedPoint(last);
      assert NonEmpty(last);
      assert Filter(NonEmpty, [last]) == [last] + Filter(NonEmpty, []);
      assert [last] + [] == [last];
    } else {
      assert Filter(NonEmpty, [last]) == [] + Filter(NonEmpty, []);
    }
  }

  /** For a reply that is not JSON, the collected names are exactly the
      fallback's non-empty names, in order: the canonicalisation in the loop
      changes nothing the fallback produced. */
  lemma FallbackReplyNames(content: string)
    ensures ReplyNames(ParseEquipment(content, ParseFailed)) == Some(Filter(NonEmpty, Fallback(content)))
  {
    FallbackNamesAreCanonical(content);
    CanonicalTexts(ParseEquipment(content, ParseFailed), Fallback(content));
  }

  /** The truthiness test comes before the trim: a blank string passes it and
      adds the empty name. */
  lemma ExampleBlankString()
    ensures ReplyNames([Text(" ")]) == Some([""])
  {
    assert AllWhitespace(" ");
    assert Canonical(" ") == "";
    assert Map(ElementNames, [Text(" ")]) == [Some([""])];
    ConcatSingle([""]);
  }

  /** Two replies naming the same equipment with different case or padding
      are detected as one name. */
  lemma SameEquipmentTwice(c1: string, a: string, c2: string, b: string)
    requires a != "" && b != "" && Canonical(a) == Canonical(b)
    ensures Detected([Answered(c1, ParsedArray([Text(a)])), Answered(c2, ParsedArray([Text(b)]))]) == Some([Canonical(a)])
  {
    SingleText(a);
    SingleText(b);
    DetectedSameTwice(Answered(c1, ParsedArray([Text(a)])), Answered(c2, ParsedArray([Text(b)])), Canonical(a));
  }

  lemma DetectedSameTwice(p1: PhotoResult, p2: PhotoResult, x: string)
    requires PhotoNames(p1) == Some([x]) && PhotoNames(p2) == Some([x])
    ensures Detected([p1, p2]) == Some([x])
  {
    assert Map(PhotoNames, [p1, p2]) == [Some([x]), Some([x])];
    ConcatPair([x], [x]);
    assert [x] + [x] == [x, x];
    AddTwice(x);
  }

  lemma AddTwice<T(!new)>(x: T)
    ensures AppendAll([], [x, x]) == [x]
  {
    assert [x, x][..1] == [x];
    assert AppendAll([], [x]) == [x] by {
      assert [x][..0] == [];
      assert AppendAll([], [x][..0]) == [];
      assert [] + [x] == [x];
    }
    assert x in [x];
  }

  lemma SingleText(a: string)
    requires a != ""
    ensures ReplyNames([Text(a)]) == Some([Canonical(a)])
  {
    assert Map(ElementNames, [Text(a)]) == [Some([Canonical(a)])];
    ConcatSingle([Canonical(a)]);
  }

  // ---------------------------------------------------------------------------
  // The merge into the stored equipment

  /** A scan only ever appends to the stored equipment: what was stored stays,
      in place; what is appended is detected and was not stored; repetitions
      are never introduced; and a scan that finds nothing or throws changes
      nothing. */
  lemma ScanAppends(stored: seq<string>, photos: seq<PhotoResult>)
    ensures var r := StoredAfterScan(stored, photos);
      && |stored| <= |r| && r[..|stored|] == stored
      && (forall x :: x in r <==> x in stored || (Detected(photos).Some? && x in Detected(photos).value))
      && (forall k :: |stored| <= k < |r| ==> r[k] !in stored)
      && (NoDuplicates(stored) ==> NoDuplicates(r))
      && (!Updates(photos) ==> r == stored)
  {
    if photos == [] {
      assert Detected(photos) == Some([]);
    }
  }

  /** When the processing of any photo throws, the stored equipment is left
      as it was. */
  lemma ScanThrowsKeepsStored(stored: seq<string>, photos: seq<PhotoResult>, i: nat)
    requires i < |photos| && PhotoThrows(photos[i])
    ensures ScanResponse(photos) == InternalError
    ensures StoredAfterScan(stored, photos) == stored
  {
    DetectedEquipment(photos);
  }

  /** Scanning the same photos again changes nothing more. */
  lemma ScanIdempotent(stored: seq<string>, photos: seq<PhotoResult>)
    ensures StoredAfterScan(StoredAfterScan(stored, photos), photos) == StoredAfterScan(stored, photos)
  {
    if Updates(photos) {
      AppendAllIdempotent(stored, Detected(photos).value);
    }
  }
}
