/**
 RTP header extensions: deduplicating a list by URI, and looking one up.
 */
module RtpExtensions {
  import opened Options

  datatype RtpExtension = RtpExtension(uri: string, id: int, encrypt: bool)

  datatype Filter = DiscardEncrypted | PreferEncrypted | RequireEncrypted

  // ---------- the order used by the sort ----------

  /** Lexicographic order on strings. */
  predicate Less(a: string, b: string) {
    b != [] && (a == [] || a[0] < b[0] || (a[0] == b[0] && Less(a[1..], b[1..])))
  }

  /** At the first place where they differ `a` has the smaller character, or ends. */
  ghost predicate SmallerAt(a: string, b: string, k: nat) {
    k <= |a| && k < |b| && a[..k] == b[..k] && (k == |a| || a[k] < b[k])
  }

  lemma {:induction false} SmallerFirst(a: string, b: string, k: nat)
    requires SmallerAt(a, b, k)
    ensures k == 0 || (a != [] && b != [] && a[0] == b[0])
  {
    if k > 0 { assert a[..k][0] == b[..k][0]; }
  }

  lemma {:induction false} LessExact(a: string, b: string)
    ensures Less(a, b) <==> exists k: nat :: SmallerAt(a, b, k)
    decreases |a|
  {
    if a == [] || b == [] || a[0] != b[0] {
      if Less(a, b) { assert SmallerAt(a, b, 0); }
      if k: nat :| SmallerAt(a, b, k) { SmallerFirst(a, b, k); }
    } else {
      LessExact(a[1..], b[1..]);
      if k: nat :| SmallerAt(a[1..], b[1..], k) {
        assert a[..k + 1] == [a[0]] + a[1..][..k] && b[..k + 1] == [b[0]] + b[1..][..k];
        assert SmallerAt(a, b, k + 1);
      }
      if k: nat :| SmallerAt(a, b, k) {
        assert a[1..][..k - 1] == a[..k][1..] && b[1..][..k - 1] == b[..k][1..];
        assert SmallerAt(a[1..], b[1..], k - 1);
      }
    }
  }

  lemma {:induction false} LessIrreflexive(a: string)
    ensures !Less(a, a)
  {
    if a != [] { LessIrreflexive(a[1..]); }
  }

  lemma {:induction false} LessTransitive(a: string, b: string, c: string)
    requires Less(a, b) && Less(b, c)
    ensures Less(a, c)
  {
    if a != [] && a[0] == b[0] == c[0] { LessTransitive(a[1..], b[1..], c[1..]); }
  }

  lemma {:induction false} LessTotal(a: string, b: string)
    ensures Less(a, b) || Less(b, a) || a == b
  {
    if a != [] && b != [] && a[0] == b[0] {
      LessTotal(a[1..], b[1..]);
      assert a == [a[0]] + a[1..] && b == [b[0]] + b[1..];
    }
  }

  /** std::tie(uri, encrypt, id) compared. */
  predicate Before(a: RtpExtension, b: RtpExtension) {
    || Less(a.uri, b.uri)
    || (a.uri == b.uri && !a.encrypt && b.encrypt)
    || (a.uri == b.uri && a.encrypt == b.encrypt && a.id < b.id)
  }

  /** The comparison is a strict total order, by URI, then unencrypted first, then by id. */
  lemma {:induction false} BeforeOrder(a: RtpExtension, b: RtpExtension)
    ensures !Before(a, a) && (Before(a, b) ==> !Before(b, a)) && (a == b || Before(a, b) || Before(b, a))
    ensures Less(a.uri, b.uri) ==> Before(a, b)
    ensures a.uri == b.uri && !a.encrypt && b.encrypt ==> Before(a, b)
    ensures a.uri == b.uri && a.encrypt == b.encrypt && a.id < b.id ==> Before(a, b)
  {
    LessTotal(a.uri, b.uri);
    LessIrreflexive(a.uri);
    if Less(a.uri, b.uri) && Less(b.uri, a.uri) { LessTransitive(a.uri, b.uri, a.uri); }
  }

  ghost predicate DistinctUris(xs: seq<RtpExtension>) {
    forall i, j :: 0 <= i < j < |xs| ==> xs[i].uri != xs[j].uri
  }

  ghost predicate StrictlyAscending(xs: seq<RtpExtension>) {
    forall i, j :: 0 <= i < j < |xs| ==> Less(xs[i].uri, xs[j].uri)
  }

  function Insert(x: RtpExtension, xs: seq<RtpExtension>): (r: seq<RtpExtension>)
    ensures multiset(r) == multiset(xs) + multiset{x}
  {
    if xs == [] || Before(x, xs[0]) then
      [x] + xs
    else
      assert xs == [xs[0]] + xs[1..];
      [xs[0]] + Insert(x, xs[1..])
  }

  /** std::sort with the comparison above, by insertion; SortUnique says that the algorithm does not matter. */
  function Sort(xs: seq<RtpExtension>): (r: seq<RtpExtension>)
    ensures multiset(r) == multiset(xs)
  {
    if xs == [] then [] else
      assert xs == [xs[0]] + xs[1..];
      Insert(xs[0], Sort(xs[1..]))
  }

  lemma {:induction false} SameMembers(xs: seq<RtpExtension>, ys: seq<RtpExtension>, e: RtpExtension)
    requires multiset(xs) == multiset(ys)
    ensures e in xs <==> e in ys
  {
    assert e in xs <==> e in multiset(xs);
    assert e in ys <==> e in multiset(ys);
  }

  lemma {:induction false} InsertAscending(x: RtpExtension, xs: seq<RtpExtension>)
    requires StrictlyAscending(xs) && forall i :: 0 <= i < |xs| ==> xs[i].uri != x.uri
    ensures StrictlyAscending(Insert(x, xs))
  {
    if xs != [] {
      LessTotal(x.uri, xs[0].uri);
      var r := Insert(x, xs);
      if Before(x, xs[0]) {
        forall j | 0 < j < |r| ensures Less(x.uri, r[j].uri) {
          if j > 1 { LessTransitive(x.uri, xs[0].uri, xs[j - 1].uri); }
        }
      } else {
        InsertAscending(x, xs[1..]);
        var tail := Insert(x, xs[1..]);
        forall j | 0 < j < |r| ensures Less(xs[0].uri, r[j].uri) {
          SameMembers(tail, xs[1..] + [x], r[j]);
        }
      }
    }
  }

  lemma {:induction false} SortAscending(xs: seq<RtpExtension>)
    requires DistinctUris(xs)
    ensures StrictlyAscending(Sort(xs))
  {
    if xs != [] {
      SortAscending(xs[1..]);
      var tail := Sort(xs[1..]);
      forall i | 0 <= i < |tail| ensures tail[i].uri != xs[0].uri {
        SameMembers(tail, xs[1..], tail[i]);
      }
      InsertAscending(xs[0], tail);
    }
  }

  lemma {:induction false} NoMembers(ys: seq<RtpExtension>)
    ensures (forall e :: e !in ys) ==> ys == []
  {
    if ys != [] { assert ys[0] in ys; }
  }

  /** A strictly ascending list is determined by its members. */
  lemma {:induction false} AscendingUnique(xs: seq<RtpExtension>, ys: seq<RtpExtension>)
    requires StrictlyAscending(xs) && StrictlyAscending(ys)
    requires forall e :: e in xs <==> e in ys
    ensures xs == ys
    decreases |xs|
  {
    if xs == [] {
      NoMembers(ys);
    } else {
      assert xs[0] in ys && ys != [] && ys[0] in xs;
      LessIrreflexive(xs[0].uri);
      if xs[0] != ys[0] {
        LessTransitive(xs[0].uri, ys[0].uri, xs[0].uri);
      }
      forall e ensures e in xs[1..] <==> e in ys[1..] {
        LessIrreflexive(e.uri);
        assert e in xs <==> e == xs[0] || e in xs[1..];
        assert e in ys <==> e == ys[0] || e in ys[1..];
      }
      AscendingUnique(xs[1..], ys[1..]);
      assert xs == [xs[0]] + xs[1..] && ys == [ys[0]] + ys[1..];
    }
  }

  /** Sorted as std::sort promises: no element compares before an earlier one. */
  ghost predicate Sorted(xs: seq<RtpExtension>) {
    forall i, j :: 0 <= i < j < |xs| ==> !Before(xs[j], xs[i])
  }

  lemma {:induction false} OnceEach(xs: seq<RtpExtension>, e: RtpExtension)
    requires DistinctUris(xs)
    ensures multiset(xs)[e] <= 1
  {
    if xs != [] {
      assert xs == [xs[0]] + xs[1..];
      OnceEach(xs[1..], e);
      if e == xs[0] { assert e !in xs[1..] && e !in multiset(xs[1..]); }
    }
  }

  lemma {:induction false} TwiceIn(xs: seq<RtpExtension>, i: nat, j: nat)
    requires i < j < |xs| && xs[i] == xs[j]
    ensures multiset(xs)[xs[i]] >= 2
  {
    assert xs == xs[..i] + [xs[i]] + xs[i + 1..j] + [xs[j]] + xs[j + 1..];
  }

  lemma {:induction false} DistinctPermuted(xs: seq<RtpExtension>, ys: seq<RtpExtension>)
    requires DistinctUris(xs) && multiset(ys) == multiset(xs)
    ensures DistinctUris(ys)
  {
    forall i, j | 0 <= i < j < |ys| ensures ys[i].uri != ys[j].uri {
      SameMembers(ys, xs, ys[i]);
      SameMembers(ys, xs, ys[j]);
      OnceEach(xs, ys[i]);
      if ys[i] == ys[j] { TwiceIn(ys, i, j); }
    }
  }

  /** When the URIs differ, every sorted permutation is the same list, whatever algorithm made it. */
  lemma {:induction false} SortUnique(xs: seq<RtpExtension>, ys: seq<RtpExtension>)
    requires DistinctUris(xs) && multiset(ys) == multiset(xs)
    ensures Sorted(ys) <==> ys == Sort(xs)
  {
    DistinctPermuted(xs, ys);
    SortAscending(xs);
    if Sorted(ys) {
      forall i, j | 0 <= i < j < |ys| ensures Less(ys[i].uri, ys[j].uri) {
        LessTotal(ys[i].uri, ys[j].uri);
      }
      forall e ensures e in ys <==> e in Sort(xs) {
        SameMembers(ys, Sort(xs), e);
      }
      AscendingUnique(ys, Sort(xs));
    }
    if StrictlyAscending(ys) {
      AscendingSorted(ys);
    }
  }

  lemma {:induction false} AscendingSorted(xs: seq<RtpExtension>)
    requires StrictlyAscending(xs)
    ensures Sorted(xs)
  {
    forall i, j | 0 <= i < j < |xs| ensures !Before(xs[j], xs[i]) {
      LessIrreflexive(xs[i].uri);
      if Less(xs[j].uri, xs[i].uri) { LessTransitive(xs[i].uri, xs[j].uri, xs[i].uri); }
    }
  }

  // ---------- what is looked for ----------

  predicate Matches(e: RtpExtension, uri: string, encrypt: bool) {
    e.uri == uri && e.encrypt == encrypt
  }

  /** The first extension of the list with this URI and encryption. */
  function First(xs: seq<RtpExtension>, uri: string, encrypt: bool): (r: Option<RtpExtension>)
    ensures r.Some? ==> r.value in xs && Matches(r.value, uri, encrypt)
    ensures r.None? ==> forall i :: 0 <= i < |xs| ==> !Matches(xs[i], uri, encrypt)
  {
    if xs == [] then None
    else
      var n := |xs| - 1;
      var r := First(xs[..n], uri, encrypt);
      if r.Some? then r else if Matches(xs[n], uri, encrypt) then Some(xs[n]) else None
  }

  /** The last one. */
  function Last(xs: seq<RtpExtension>, uri: string, encrypt: bool): (r: Option<RtpExtension>)
    ensures r.Some? ==> r.value in xs && Matches(r.value, uri, encrypt)
    ensures r.None? ==> forall i :: 0 <= i < |xs| ==> !Matches(xs[i], uri, encrypt)
  {
    if xs == [] then None
    else
      var n := |xs| - 1;
      if Matches(xs[n], uri, encrypt) then Some(xs[n]) else Last(xs[..n], uri, encrypt)
  }

  function OrElse<T>(a: Option<T>, b: Option<T>): Option<T> {
    if a.Some? then a else b
  }

  /** What deduplication keeps for a URI: the first encrypted one, if admitted, or else the first unencrypted one. */
  function Winner(xs: seq<RtpExtension>, uri: string, filter: Filter): Option<RtpExtension> {
    OrElse(if filter.DiscardEncrypted? then None else First(xs, uri, true),
           if filter.RequireEncrypted? then None else First(xs, uri, false))
  }

  /** What the lookup returns: for the preference, the fallback is the last unencrypted one. */
  function Lookup(xs: seq<RtpExtension>, uri: string, filter: Filter): Option<RtpExtension> {
    match filter
    case DiscardEncrypted => First(xs, uri, false)
    case RequireEncrypted => First(xs, uri, true)
    case PreferEncrypted => OrElse(First(xs, uri, true), Last(xs, uri, false))
  }

  ghost predicate HasUri(xs: seq<RtpExtension>, uri: string) {
    exists i :: 0 <= i < |xs| && xs[i].uri == uri
  }

  /** `r` is the deduplicated form of `xs`: sorted by URI, and exactly the winners. */
  ghost predicate IsDeduplicated(xs: seq<RtpExtension>, filter: Filter, r: seq<RtpExtension>) {
    StrictlyAscending(r) && forall e :: e in r <==> Winner(xs, e.uri, filter) == Some(e)
  }

  // ---------- the operations ----------

  method HeaderExtensionWithUriExists(extensions: seq<RtpExtension>, uri: string) returns (found: bool)
    ensures found <==> HasUri(extensions, uri)
  {
    for i := 0 to |extensions|
      invariant forall j :: 0 <= j < i ==> extensions[j].uri != uri
    {
      if extensions[i].uri == uri {
        return true;
      }
    }
    return false;
  }

  method FindHeaderExtensionByUri(extensions: seq<RtpExtension>, uri: string, filter: Filter)
    returns (r: Option<RtpExtension>)
    ensures r == Lookup(extensions, uri, filter)
  {
    var fallback: Option<RtpExtension> := None;
    for i := 0 to |extensions|
      invariant filter != RequireEncrypted ==> filter == PreferEncrypted || First(extensions[..i], uri, false) == None
      invariant filter != DiscardEncrypted ==> First(extensions[..i], uri, true) == None
      invariant fallback == if filter == PreferEncrypted then Last(extensions[..i], uri, false) else None
    {
      var extension := extensions[i];
      assert extensions[..i + 1][..i] == extensions[..i];
      if extension.uri != uri {
        continue;
      }
      match filter
      case DiscardEncrypted =>
        if !extension.encrypt {
          FirstFound(extensions, i, uri, false);
          return Some(extension);
        }
      case PreferEncrypted =>
        if extension.encrypt {
          FirstFound(extensions, i, uri, true);
          return Some(extension);
        } else {
          fallback := Some(extension);
        }
      case RequireEncrypted =>
        if extension.encrypt {
          FirstFound(extensions, i, uri, true);
          return Some(extension);
        }
    }
    assert extensions[..|extensions|] == extensions;
    return fallback;
  }

  method FindHeaderExtensionByUriAndEncryption(extensions: seq<RtpExtension>, uri: string, encrypt: bool)
    returns (r: Option<RtpExtension>)
    ensures r == First(extensions, uri, encrypt)
  {
    for i := 0 to |extensions|
      invariant First(extensions[..i], uri, encrypt) == None
    {
      assert extensions[..i + 1][..i] == extensions[..i];
      if extensions[i].uri == uri && extensions[i].encrypt == encrypt {
        FirstFound(extensions, i, uri, encrypt);
        return Some(extensions[i]);
      }
    }
    assert extensions[..|extensions|] == extensions;
    return None;
  }

  /** The first match of a prefix is the first match of the list. */
  lemma {:induction false} FirstFound(xs: seq<RtpExtension>, i: nat, uri: string, encrypt: bool)
    requires i < |xs| && First(xs[..i], uri, encrypt) == None && Matches(xs[i], uri, encrypt)
    ensures First(xs, uri, encrypt) == Some(xs[i])
    decreases |xs|
  {
    if i < |xs| - 1 {
      var n := |xs| - 1;
      assert xs[..n][..i] == xs[..i];
      FirstFound(xs[..n], i, uri, encrypt);
    }
  }

  /** A match that no later one follows is the last match. */
  lemma {:induction false} LastFound(xs: seq<RtpExtension>, i: nat, uri: string, encrypt: bool)
    requires i < |xs| && Matches(xs[i], uri, encrypt)
    requires forall j :: i < j < |xs| ==> !Matches(xs[j], uri, encrypt)
    ensures Last(xs, uri, encrypt) == Some(xs[i])
    decreases |xs|
  {
    if i < |xs| - 1 {
      LastFound(xs[..|xs| - 1], i, uri, encrypt);
    }
  }

  /** The candidate for a URI when encrypted extensions are taken from `xs` and unencrypted ones from `ys`. */
  function Candidate(xs: seq<RtpExtension>, ys: seq<RtpExtension>, uri: string): Option<RtpExtension> {
    OrElse(First(xs, uri, true), First(ys, uri, false))
  }

  /** `filtered` holds one extension per URI that has a candidate, namely that candidate. */
  ghost predicate Collected(filtered: seq<RtpExtension>, xs: seq<RtpExtension>, ys: seq<RtpExtension>) {
    DistinctUris(filtered) && forall e :: e in filtered <==> Candidate(xs, ys, e.uri) == Some(e)
  }

  lemma {:induction false} FirstSnoc(xs: seq<RtpExtension>, x: RtpExtension, uri: string, encrypt: bool)
    ensures First(xs + [x], uri, encrypt)
            == OrElse(First(xs, uri, encrypt), if Matches(x, uri, encrypt) then Some(x) else None)
  {
    assert (xs + [x])[..|xs|] == xs;
  }

  lemma {:induction false} CollectedUris(
    filtered: seq<RtpExtension>, xs: seq<RtpExtension>, ys: seq<RtpExtension>, uri: string)
    requires Collected(filtered, xs, ys)
    ensures HasUri(filtered, uri) <==> Candidate(xs, ys, uri).Some?
  {
    if HasUri(filtered, uri) {
      var i :| 0 <= i < |filtered| && filtered[i].uri == uri;
      assert filtered[i] in filtered;
    }
    if Candidate(xs, ys, uri).Some? {
      assert Candidate(xs, ys, uri).value in filtered;
    }
  }

  /** One round of a collecting loop: `x` becomes the candidate of its URI if that had none. */
  lemma {:induction false} CollectStep(filtered: seq<RtpExtension>, xs: seq<RtpExtension>, ys: seq<RtpExtension>,
                                       xs': seq<RtpExtension>, ys': seq<RtpExtension>, x: RtpExtension, take: bool)
    requires Collected(filtered, xs, ys)
    requires forall uri :: Candidate(xs', ys', uri)
                           == OrElse(Candidate(xs, ys, uri), if take && uri == x.uri then Some(x) else None)
    ensures Collected(if take && !HasUri(filtered, x.uri) then filtered + [x] else filtered, xs', ys')
  {
    hide First, Matches;
    CollectedUris(filtered, xs, ys, x.uri);
    var filtered' := if take && !HasUri(filtered, x.uri) then filtered + [x] else filtered;
    forall e ensures e in filtered' <==> Candidate(xs', ys', e.uri) == Some(e) {
      assert e in filtered <==> Candidate(xs, ys, e.uri) == Some(e);
    }
  }

  lemma {:induction false} CollectEncrypted(filtered: seq<RtpExtension>, xs: seq<RtpExtension>, x: RtpExtension)
    requires Collected(filtered, xs, [])
    ensures Collected(if x.encrypt && !HasUri(filtered, x.uri) then filtered + [x] else filtered, xs + [x], [])
  {
    forall uri
      ensures Candidate(xs + [x], [], uri)
              == OrElse(Candidate(xs, [], uri), if x.encrypt && uri == x.uri then Some(x) else None)
    {
      FirstSnoc(xs, x, uri, true);
    }
    CollectStep(filtered, xs, [], xs + [x], [], x, x.encrypt);
  }

  lemma {:induction false} CollectPlain(
    filtered: seq<RtpExtension>, xs: seq<RtpExtension>, ys: seq<RtpExtension>, y: RtpExtension)
    requires Collected(filtered, xs, ys)
    ensures Collected(if !y.encrypt && !HasUri(filtered, y.uri) then filtered + [y] else filtered, xs, ys + [y])
  {
    forall uri
      ensures Candidate(xs, ys + [y], uri)
              == OrElse(Candidate(xs, ys, uri), if !y.encrypt && uri == y.uri then Some(y) else None)
    {
      FirstSnoc(ys, y, uri, false);
    }
    CollectStep(filtered, xs, ys, xs, ys + [y], y, !y.encrypt);
  }

  lemma {:induction false} CollectedSorts(filtered: seq<RtpExtension>, xs: seq<RtpExtension>, filter: Filter)
    requires Collected(filtered,
                       if filter.DiscardEncrypted? then [] else xs,
                       if filter.RequireEncrypted? then [] else xs)
    ensures IsDeduplicated(xs, filter, Sort(filtered))
  {
    SortAscending(filtered);
    forall e ensures e in Sort(filtered) <==> Winner(xs, e.uri, filter) == Some(e) {
      SameMembers(Sort(filtered), filtered, e);
    }
  }

  method DeduplicateHeaderExtensions(extensions: seq<RtpExtension>, filter: Filter) returns (r: seq<RtpExtension>)
    ensures IsDeduplicated(extensions, filter, r)
  {
    hide Collected, HasUri, Sort, IsDeduplicated;
    var filtered: seq<RtpExtension> := [];
    CollectNothing();
    ghost var encrypted: seq<RtpExtension> := [];
    if filter != DiscardEncrypted {
      for i := 0 to |extensions|
        invariant Collected(filtered, extensions[..i], [])
      {
        var extension := extensions[i];
        assert extensions[..i + 1] == extensions[..i] + [extension];
        CollectEncrypted(filtered, extensions[..i], extension);
        if !extension.encrypt {
          continue;
        }
        var exists_ := HeaderExtensionWithUriExists(filtered, extension.uri);
        if !exists_ {
          filtered := filtered + [extension];
        }
      }
      encrypted := extensions;
      assert extensions[..|extensions|] == extensions;
    }
    ghost var plain: seq<RtpExtension> := [];
    if filter != RequireEncrypted {
      for i := 0 to |extensions|
        invariant Collected(filtered, encrypted, extensions[..i])
      {
        var extension := extensions[i];
        assert extensions[..i + 1] == extensions[..i] + [extension];
        CollectPlain(filtered, encrypted, extensions[..i], extension);
        if extension.encrypt {
          continue;
        }
        var exists_ := HeaderExtensionWithUriExists(filtered, extension.uri);
        if !exists_ {
          filtered := filtered + [extension];
        }
      }
      plain := extensions;
      assert extensions[..|extensions|] == extensions;
    }
    CollectedSorts(filtered, extensions, filter);
    r := Sort(filtered);
  }

  lemma {:induction false} CollectNothing()
    ensures Collected([], [], [])
  {
  }

  // ---------- what the result means ----------

  /** Whether a filter admits an extension at all. */
  predicate Allowed(e: RtpExtension, filter: Filter) {
    if e.encrypt then !filter.DiscardEncrypted? else !filter.RequireEncrypted?
  }

  /** The deduplicated list has exactly the URIs of the extensions the filter admits. */
  lemma {:induction false} DeduplicatedUris(xs: seq<RtpExtension>, filter: Filter, r: seq<RtpExtension>, uri: string)
    requires IsDeduplicated(xs, filter, r)
    ensures HasUri(r, uri) <==> exists i :: 0 <= i < |xs| && xs[i].uri == uri && Allowed(xs[i], filter)
  {
    if HasUri(r, uri) {
      var i :| 0 <= i < |r| && r[i].uri == uri;
      assert r[i] in r && r[i] in xs;
    }
    if i :| 0 <= i < |xs| && xs[i].uri == uri && Allowed(xs[i], filter) {
      assert Matches(xs[i], uri, xs[i].encrypt);
      assert Winner(xs, uri, filter).Some?;
      assert Winner(xs, uri, filter).value in r;
    }
  }

  /** The result is determined: no two lists are deduplicated forms of the same one. */
  lemma {:induction false} DeduplicatedUnique(
    xs: seq<RtpExtension>, filter: Filter, r: seq<RtpExtension>, r': seq<RtpExtension>)
    requires IsDeduplicated(xs, filter, r) && IsDeduplicated(xs, filter, r')
    ensures r == r'
  {
    AscendingUnique(r, r');
  }

  /** When a (uri, encrypt) pair does not repeat, the first match is the only one. */
  ghost predicate NoRepeatedPair(xs: seq<RtpExtension>) {
    forall i, j :: 0 <= i < j < |xs| ==> xs[i].uri != xs[j].uri || xs[i].encrypt != xs[j].encrypt
  }

  lemma {:induction false} FirstIsOnly(xs: seq<RtpExtension>, uri: string, encrypt: bool, e: RtpExtension)
    requires NoRepeatedPair(xs)
    ensures First(xs, uri, encrypt) == Some(e) <==> e in xs && Matches(e, uri, encrypt)
  {
  }

  /** Deduplicating again changes nothing. */
  lemma {:induction false} DeduplicatedIdempotent(xs: seq<RtpExtension>, filter: Filter, r: seq<RtpExtension>)
    requires IsDeduplicated(xs, filter, r)
    ensures IsDeduplicated(r, filter, r)
  {
    hide First;
    AscendingDistinct(r);
    forall e ensures e in r <==> Winner(r, e.uri, filter) == Some(e) {
      FirstIsOnly(r, e.uri, true, e);
      FirstIsOnly(r, e.uri, false, e);
      if e in r && !e.encrypt && First(r, e.uri, true).Some? {
        SameUri(r, e, First(r, e.uri, true).value);
      }
    }
  }

  lemma {:induction false} AscendingDistinct(r: seq<RtpExtension>)
    requires StrictlyAscending(r)
    ensures DistinctUris(r) && NoRepeatedPair(r)
  {
    forall i, j | 0 <= i < j < |r| ensures r[i].uri != r[j].uri {
      LessIrreflexive(r[i].uri);
    }
  }

  lemma {:induction false} SameUri(r: seq<RtpExtension>, e: RtpExtension, f: RtpExtension)
    requires DistinctUris(r) && e in r && f in r && e.uri == f.uri
    ensures e == f
  {
  }

  /** The order of the input does not matter when no (uri, encrypt) pair repeats. */
  lemma {:induction false} DeduplicatedPermutation(
    xs: seq<RtpExtension>, ys: seq<RtpExtension>, filter: Filter, r: seq<RtpExtension>)
    requires multiset(xs) == multiset(ys) && NoRepeatedPair(xs)
    requires IsDeduplicated(xs, filter, r)
    ensures IsDeduplicated(ys, filter, r)
  {
    hide First;
    PermutedPairs(xs, ys);
    forall uri ensures Winner(xs, uri, filter) == Winner(ys, uri, filter) {
      SameFirst(xs, ys, uri, true);
      SameFirst(xs, ys, uri, false);
    }
  }

  lemma {:induction false} FindTwice(xs: seq<RtpExtension>, e: RtpExtension)
    requires multiset(xs)[e] >= 2
    ensures exists i, j :: 0 <= i < j < |xs| && xs[i] == e && xs[j] == e
    decreases |xs|
  {
    var n := |xs| - 1;
    assert xs == xs[..n] + [xs[n]];
    assert multiset(xs) == multiset(xs[..n]) + multiset{xs[n]};
    if xs[n] == e {
      assert e in multiset(xs[..n]) && e in xs[..n];
      var i :| 0 <= i < n && xs[..n][i] == e;
      assert xs[i] == e;
    } else {
      FindTwice(xs[..n], e);
      var i, j :| 0 <= i < j < n && xs[..n][i] == e && xs[..n][j] == e;
      assert xs[i] == e && xs[j] == e;
    }
  }

  lemma {:induction false} PermutedPairs(xs: seq<RtpExtension>, ys: seq<RtpExtension>)
    requires multiset(xs) == multiset(ys) && NoRepeatedPair(xs)
    ensures NoRepeatedPair(ys)
  {
    forall i, j | 0 <= i < j < |ys| ensures ys[i].uri != ys[j].uri || ys[i].encrypt != ys[j].encrypt {
      SameMembers(xs, ys, ys[i]);
      SameMembers(xs, ys, ys[j]);
      if ys[i] == ys[j] {
        TwiceIn(ys, i, j);
        FindTwice(xs, ys[i]);
      }
    }
  }

  lemma {:induction false} SameFirst(xs: seq<RtpExtension>, ys: seq<RtpExtension>, uri: string, encrypt: bool)
    requires multiset(xs) == multiset(ys) && NoRepeatedPair(xs) && NoRepeatedPair(ys)
    ensures First(xs, uri, encrypt) == First(ys, uri, encrypt)
  {
    match First(xs, uri, encrypt)
    case Some(e) =>
      SameMembers(xs, ys, e);
      FirstIsOnly(ys, uri, encrypt, e);
    case None =>
      match First(ys, uri, encrypt)
      case Some(e) => SameMembers(xs, ys, e);
      case None =>
  }

  /** Position `i` holds the first match of the list. */
  ghost predicate IsFirst(xs: seq<RtpExtension>, uri: string, encrypt: bool, i: nat) {
    && i < |xs| && Matches(xs[i], uri, encrypt)
    && forall k :: 0 <= k < i ==> !Matches(xs[k], uri, encrypt)
  }

  ghost predicate IsLast(xs: seq<RtpExtension>, uri: string, encrypt: bool, i: nat) {
    && i < |xs| && Matches(xs[i], uri, encrypt)
    && forall k :: i < k < |xs| ==> !Matches(xs[k], uri, encrypt)
  }

  ghost predicate HasMatch(xs: seq<RtpExtension>, uri: string, encrypt: bool) {
    exists k :: 0 <= k < |xs| && Matches(xs[k], uri, encrypt)
  }

  lemma {:induction false} FirstAt(xs: seq<RtpExtension>, uri: string, encrypt: bool) returns (i: nat)
    requires HasMatch(xs, uri, encrypt)
    ensures IsFirst(xs, uri, encrypt, i) && First(xs, uri, encrypt) == Some(xs[i])
    decreases |xs|
  {
    i :| 0 <= i < |xs| && Matches(xs[i], uri, encrypt);
    if HasMatch(xs[..i], uri, encrypt) {
      i := FirstAt(xs[..i], uri, encrypt);
    }
    assert forall k :: 0 <= k < i ==> xs[..i][k] == xs[k];
    FirstFound(xs, i, uri, encrypt);
  }

  lemma {:induction false} LastAt(xs: seq<RtpExtension>, uri: string, encrypt: bool) returns (i: nat)
    requires HasMatch(xs, uri, encrypt)
    ensures IsLast(xs, uri, encrypt, i) && Last(xs, uri, encrypt) == Some(xs[i])
    decreases |xs|
  {
    var n := |xs| - 1;
    if Matches(xs[n], uri, encrypt) {
      i := n;
    } else {
      var k :| 0 <= k < |xs| && Matches(xs[k], uri, encrypt);
      assert Matches(xs[..n][k], uri, encrypt);
      i := LastAt(xs[..n], uri, encrypt);
      assert forall k :: 0 <= k < n ==> xs[..n][k] == xs[k];
    }
  }

  lemma {:induction false} FirstExact(xs: seq<RtpExtension>, uri: string, encrypt: bool, e: RtpExtension)
    ensures First(xs, uri, encrypt) == Some(e) <==> exists i: nat :: IsFirst(xs, uri, encrypt, i) && xs[i] == e
    ensures First(xs, uri, encrypt) == None <==> !HasMatch(xs, uri, encrypt)
  {
    if HasMatch(xs, uri, encrypt) {
      var i := FirstAt(xs, uri, encrypt);
      if j: nat :| IsFirst(xs, uri, encrypt, j) { OnlyFirst(xs, uri, encrypt, i, j); }
    } else {
      NoMatch(xs, uri, encrypt);
    }
  }

  lemma {:induction false} LastExact(xs: seq<RtpExtension>, uri: string, encrypt: bool, e: RtpExtension)
    ensures Last(xs, uri, encrypt) == Some(e) <==> exists i: nat :: IsLast(xs, uri, encrypt, i) && xs[i] == e
  {
    if HasMatch(xs, uri, encrypt) {
      var i := LastAt(xs, uri, encrypt);
      if j: nat :| IsLast(xs, uri, encrypt, j) { OnlyLast(xs, uri, encrypt, i, j); }
    } else {
      NoMatch(xs, uri, encrypt);
    }
  }

  /** The extension at position `i` is the one that deduplication keeps for its URI. */
  ghost predicate Kept(xs: seq<RtpExtension>, filter: Filter, i: nat) {
    && i < |xs| && IsFirst(xs, xs[i].uri, xs[i].encrypt, i)
    && match filter
       case DiscardEncrypted => !xs[i].encrypt
       case RequireEncrypted => xs[i].encrypt
       case PreferEncrypted => xs[i].encrypt || !HasMatch(xs, xs[i].uri, true)
  }

  /** Position by position: what the deduplicated list holds. */
  lemma {:induction false} KeptExact(xs: seq<RtpExtension>, filter: Filter, r: seq<RtpExtension>, e: RtpExtension)
    requires IsDeduplicated(xs, filter, r)
    ensures e in r <==> exists i: nat :: Kept(xs, filter, i) && xs[i] == e
  {
    hide First, HasMatch, StrictlyAscending;
    FirstExact(xs, e.uri, true, e);
    FirstExact(xs, e.uri, false, e);
    assert e in r <==> Winner(xs, e.uri, filter) == Some(e);
    if i: nat :| IsFirst(xs, e.uri, e.encrypt, i) && xs[i] == e {
      PositionOf(xs, e.uri, e.encrypt, i);
      assert Kept(xs, filter, i) <==> e in r;
    }
  }

  lemma {:induction false} PositionOf(xs: seq<RtpExtension>, uri: string, encrypt: bool, i: nat)
    requires IsFirst(xs, uri, encrypt, i)
    ensures i < |xs| && Matches(xs[i], uri, encrypt) && HasMatch(xs, uri, encrypt)
  {
  }

  /** The extension at position `i` is the one that the lookup returns. */
  ghost predicate LookedUp(xs: seq<RtpExtension>, uri: string, filter: Filter, i: nat) {
    match filter
    case DiscardEncrypted => IsFirst(xs, uri, false, i)
    case RequireEncrypted => IsFirst(xs, uri, true, i)
    case PreferEncrypted => IsFirst(xs, uri, true, i) || (!HasMatch(xs, uri, true) && IsLast(xs, uri, false, i))
  }

  lemma {:induction false} LookupExact(xs: seq<RtpExtension>, uri: string, filter: Filter, e: RtpExtension)
    ensures Lookup(xs, uri, filter) == Some(e) <==> exists i: nat :: LookedUp(xs, uri, filter, i) && xs[i] == e
  {
    hide First, Last, HasMatch;
    FirstExact(xs, uri, true, e);
    FirstExact(xs, uri, false, e);
    LastExact(xs, uri, false, e);
    if HasMatch(xs, uri, true) { var i := FirstAt(xs, uri, true); }
  }

  /** No encrypted extension of the URI, and of the unencrypted ones the first and the last have different ids. */
  ghost predicate Ambiguous(xs: seq<RtpExtension>, uri: string) {
    && !HasMatch(xs, uri, true)
    && exists i: nat, j: nat :: IsFirst(xs, uri, false, i) && IsLast(xs, uri, false, j) && xs[i].id != xs[j].id
  }

  lemma {:induction false} AmbiguousExact(xs: seq<RtpExtension>, uri: string)
    ensures Ambiguous(xs, uri) <==> First(xs, uri, true) == None && First(xs, uri, false) != Last(xs, uri, false)
  {
    if HasMatch(xs, uri, true) {
      var i := FirstAt(xs, uri, true);
    } else {
      NoMatch(xs, uri, true);
    }
    if HasMatch(xs, uri, false) {
      var i := FirstAt(xs, uri, false);
      var j := LastAt(xs, uri, false);
      if xs[i].id != xs[j].id {
        assert IsFirst(xs, uri, false, i) && IsLast(xs, uri, false, j);
      } else {
        assert xs[i] == xs[j];
        forall i': nat, j': nat | IsFirst(xs, uri, false, i') && IsLast(xs, uri, false, j') ensures xs[i'] == xs[j'] {
          OnlyFirst(xs, uri, false, i, i');
          OnlyLast(xs, uri, false, j, j');
        }
      }
    } else {
      NoMatch(xs, uri, false);
    }
  }

  lemma {:induction false} NoMatch(xs: seq<RtpExtension>, uri: string, encrypt: bool)
    requires !HasMatch(xs, uri, encrypt)
    ensures First(xs, uri, encrypt) == None && Last(xs, uri, encrypt) == None
    ensures forall i: nat :: !IsFirst(xs, uri, encrypt, i) && !IsLast(xs, uri, encrypt, i)
  {
  }

  lemma {:induction false} OnlyFirst(xs: seq<RtpExtension>, uri: string, encrypt: bool, i: nat, j: nat)
    requires IsFirst(xs, uri, encrypt, i) && IsFirst(xs, uri, encrypt, j)
    ensures i == j
  {
  }

  lemma {:induction false} OnlyLast(xs: seq<RtpExtension>, uri: string, encrypt: bool, i: nat, j: nat)
    requires IsLast(xs, uri, encrypt, i) && IsLast(xs, uri, encrypt, j)
    ensures i == j
  {
  }

  /**
   The lookup finds something for a URI exactly when the deduplicated list has that URI, with the
   same encryption. It is another extension exactly when encrypted ones are preferred, the input has
   none, and its first and last unencrypted ones differ: the lookup takes the last and
   deduplication the first.
   */
  lemma {:induction false} LookupAgrees(xs: seq<RtpExtension>, uri: string, filter: Filter, r: seq<RtpExtension>)
    requires IsDeduplicated(xs, filter, r)
    ensures Lookup(xs, uri, filter).Some? <==> HasUri(r, uri)
    ensures forall e :: e in r && e.uri == uri ==>
      && Lookup(xs, uri, filter).Some?
      && Lookup(xs, uri, filter).value.encrypt == e.encrypt
      && (Lookup(xs, uri, filter) != Some(e) <==> filter == PreferEncrypted && Ambiguous(xs, uri))
  {
    hide First, Last, Ambiguous;
    var w := Winner(xs, uri, filter);
    if w.Some? { assert w.value in r && w.value.uri == uri; }
    if HasUri(r, uri) {
      var i :| 0 <= i < |r| && r[i].uri == uri;
      assert r[i] in r;
    }
    SameFound(xs, uri, false);
    AmbiguousExact(xs, uri);
  }

  lemma {:induction false} SameFound(xs: seq<RtpExtension>, uri: string, encrypt: bool)
    ensures First(xs, uri, encrypt).Some? <==> Last(xs, uri, encrypt).Some?
  {
    match First(xs, uri, encrypt)
    case Some(e) =>
      var i :| 0 <= i < |xs| && xs[i] == e;
      assert Matches(xs[i], uri, encrypt);
    case None =>
  }

  /** Two unencrypted extensions of one URI on which the two disagree. */
  lemma {:induction false} LookupDisagrees()
    ensures var a, b := RtpExtension("uri", 1, false), RtpExtension("uri", 2, false);
      Lookup([a, b], "uri", PreferEncrypted) == Some(b) && Winner([a, b], "uri", PreferEncrypted) == Some(a)
  {
    var a, b := RtpExtension("uri", 1, false), RtpExtension("uri", 2, false);
    assert [a, b][..1] == [a] && [a][..0] == [];
    assert First([a], "uri", false) == Some(a) && First([a], "uri", true) == None;
    assert First([a, b], "uri", false) == Some(a) && First([a, b], "uri", true) == None;
  }
}
