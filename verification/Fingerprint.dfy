/** The byte streams that fingerprints hash: records of length-prefixed fields. A string stands
    for its bytes, one character per byte. */
module Fingerprint {

  // ---------------------------------------------------------------- numbers

  function Digit(d: nat): char
    requires d < 10
  {
    ('0' as int + d) as char
  }

  function Decimal(n: nat): (s: string)
    ensures s != "" && forall c <- s :: '0' <= c <= '9'
  {
    if n < 10 then [Digit(n)] else Decimal(n / 10) + [Digit(n % 10)]
  }

  function Signed(n: int): string {
    if n < 0 then "-" + Decimal(-n) else Decimal(n)
  }

  lemma {:induction false} DecimalInjective(a: nat, b: nat)
    requires Decimal(a) == Decimal(b)
    ensures a == b
  {
    var s := Decimal(a);
    if a >= 10 && b >= 10 {
      assert s[..|s| - 1] == Decimal(a / 10) == Decimal(b / 10);
      assert s[|s| - 1] == Digit(a % 10) == Digit(b % 10);
      DecimalInjective(a / 10, b / 10);
    } else {
      assert s[|s| - 1] == Digit(a % 10) == Digit(b % 10);
    }
  }

  lemma SignedInjective(a: int, b: int)
    requires Signed(a) == Signed(b)
    ensures a == b
  {
    FirstOfSigned(a);
    FirstOfSigned(b);
    if a < 0 {
      assert Signed(a)[1..] == Decimal(-a) && Signed(b)[1..] == Decimal(-b);
      DecimalInjective(-a, -b);
    } else {
      DecimalInjective(a, b);
    }
  }

  lemma FirstOfSigned(n: int)
    ensures Signed(n) != "" && (Signed(n)[0] == '-' <==> n < 0)
  {
    assert n >= 0 ==> Decimal(n)[0] in Decimal(n);
  }

  function ColonAt(s: string): nat {
    if s == "" || s[0] == ':' then 0 else 1 + ColonAt(s[1..])
  }

  lemma {:induction false} ColonBehind(s: string, rest: string)
    requires forall c <- s :: c != ':'
    ensures ColonAt(s + ":" + rest) == |s|
  {
    if s != "" {
      assert s[0] in s && forall c <- s[1..] :: c in s;
      assert (s + ":" + rest)[1..] == s[1..] + ":" + rest;
      ColonBehind(s[1..], rest);
    }
  }

  /** A number and the colon behind it can be read off the front of a stream. */
  lemma NumberUnique(s: string, t: string, rest: string, tail: string)
    requires (forall c <- s :: c != ':') && (forall c <- t :: c != ':')
    requires s + ":" + rest == t + ":" + tail
    ensures s == t && rest == tail
  {
    var all := s + ":" + rest;
    ColonBehind(s, rest);
    ColonBehind(t, tail);
    assert all[..|s|] == s && all[..|t|] == t;
    assert all[|s| + 1..] == rest && all[|t| + 1..] == tail;
  }

  // ---------------------------------------------------------------- fields

  datatype Field = Field(name: string, value: string)

  function Prefixed(s: string): string {
    Decimal(|s|) + ":" + s
  }

  function Written(f: Field): string {
    Prefixed(f.name) + "=" + Prefixed(f.value) + "\n"
  }

  /** The stream after some fields. */
  function Stream(fields: seq<Field>): string {
    if fields == [] then "" else Written(fields[0]) + Stream(fields[1..])
  }

  lemma NoColon(n: nat)
    ensures forall c <- Decimal(n) :: c != ':'
  {
  }

  lemma PrefixedUnique(s: string, t: string, rest: string, tail: string)
    requires Prefixed(s) + rest == Prefixed(t) + tail
    ensures s == t && rest == tail
  {
    hide Decimal;
    NoColon(|s|);
    NoColon(|t|);
    assert Prefixed(s) + rest == Decimal(|s|) + ":" + (s + rest);
    assert Prefixed(t) + tail == Decimal(|t|) + ":" + (t + tail);
    NumberUnique(Decimal(|s|), Decimal(|t|), s + rest, t + tail);
    DecimalInjective(|s|, |t|);
    assert (s + rest)[..|s|] == s && (t + tail)[..|t|] == t;
    assert (s + rest)[|s|..] == rest && (t + tail)[|t|..] == tail;
  }

  /** A field is read off the front of a stream in one way, whatever bytes it holds. */
  lemma FieldUnique(f: Field, g: Field, rest: string, tail: string)
    requires Written(f) + rest == Written(g) + tail
    ensures f == g && rest == tail
  {
    hide Prefixed;
    var fRest, gRest := Prefixed(f.value) + "\n" + rest, Prefixed(g.value) + "\n" + tail;
    assert Written(f) + rest == Prefixed(f.name) + ("=" + fRest);
    assert Written(g) + tail == Prefixed(g.name) + ("=" + gRest);
    PrefixedUnique(f.name, g.name, "=" + fRest, "=" + gRest);
    assert fRest == ("=" + fRest)[1..] == ("=" + gRest)[1..] == gRest;
    assert fRest == Prefixed(f.value) + ("\n" + rest) && gRest == Prefixed(g.value) + ("\n" + tail);
    PrefixedUnique(f.value, g.value, "\n" + rest, "\n" + tail);
    assert rest == ("\n" + rest)[1..] && tail == ("\n" + tail)[1..];
  }

  lemma {:induction false} StreamInjective(fs: seq<Field>, gs: seq<Field>)
    requires Stream(fs) == Stream(gs)
    ensures fs == gs
  {
    hide Written;
    if fs != [] && gs != [] {
      FieldUnique(fs[0], gs[0], Stream(fs[1..]), Stream(gs[1..]));
      StreamInjective(fs[1..], gs[1..]);
      assert fs == [fs[0]] + fs[1..] && gs == [gs[0]] + gs[1..];
    } else if fs != [] {
      SomethingWritten(fs[0]);
    } else if gs != [] {
      SomethingWritten(gs[0]);
    }
  }

  lemma SomethingWritten(f: Field)
    ensures Written(f) != ""
  {
  }

  lemma {:induction false} StreamConcat(a: seq<Field>, b: seq<Field>)
    ensures Stream(a + b) == Stream(a) + Stream(b)
  {
    hide Written;
    if a == [] {
      assert a + b == b;
    } else {
      assert (a + b)[1..] == a[1..] + b;
      StreamConcat(a[1..], b);
    }
  }

  // ---------------------------------------------------------------- sorted keys

  /** The order of strings, byte by byte. */
  predicate Less(a: string, b: string) {
    b != "" && (a == "" || a[0] < b[0] || (a[0] == b[0] && Less(a[1..], b[1..])))
  }

  /** The strings are the same up to k, where the first one ends or has the smaller character. */
  predicate LessAt(a: string, b: string, k: nat) {
    k <= |a| && k < |b| && a[..k] == b[..k] && (k < |a| ==> a[k] < b[k])
  }

  /** The first place where two strings differ decides. */
  lemma {:induction false} LessAtDifference(a: string, b: string)
    ensures Less(a, b) <==> exists k: nat :: LessAt(a, b, k)
  {
    if a != "" && b != "" && a[0] == b[0] {
      LessAtDifference(a[1..], b[1..]);
      if k: nat :| LessAt(a[1..], b[1..], k) {
        assert a[..k + 1] == [a[0]] + a[1..][..k] && b[..k + 1] == [b[0]] + b[1..][..k];
        assert LessAt(a, b, k + 1);
      }
      if k: nat :| LessAt(a, b, k) {
        assert a[1..][..k - 1] == a[..k][1..] && b[1..][..k - 1] == b[..k][1..];
        assert LessAt(a[1..], b[1..], k - 1);
      }
    } else if b != "" {
      if a == "" || a[0] < b[0] {
        assert LessAt(a, b, 0);
      }
      if a != "" {
        forall k | 0 < k <= |a| && k < |b| ensures a[..k] != b[..k] {
          assert a[..k][0] == a[0] && b[..k][0] == b[0];
        }
      }
    }
  }

  lemma {:induction false} LessTotal(a: string, b: string)
    ensures a == b || Less(a, b) || Less(b, a)
    ensures !(Less(a, b) && Less(b, a)) && (a == b ==> !Less(a, b))
  {
    if a != "" && b != "" && a[0] == b[0] {
      LessTotal(a[1..], b[1..]);
      assert a == [a[0]] + a[1..] && b == [b[0]] + b[1..];
    }
  }

  lemma {:induction false} LessTransitive(a: string, b: string, c: string)
    requires Less(a, b) && Less(b, c)
    ensures Less(a, c)
  {
    if a != "" && a[0] == b[0] == c[0] {
      LessTransitive(a[1..], b[1..], c[1..]);
    }
  }

  predicate Sorted(keys: seq<string>) {
    forall i, j :: 0 <= i < j < |keys| ==> Less(keys[i], keys[j])
  }

  ghost predicate SortedKeys(keys: seq<string>, s: set<string>) {
    Sorted(keys) && forall k :: k in keys <==> k in s
  }

  /** A set of keys has one sorted list. */
  lemma {:induction false} SortedOnce(a: seq<string>, b: seq<string>)
    requires Sorted(a) && Sorted(b) && forall k :: k in a <==> k in b
    ensures a == b
  {
    hide Less;
    SameEmptiness(a, b);
    if a != [] {
      SmallestFirst(a, b);
      assert a == [a[0]] + a[1..] && b == [b[0]] + b[1..];
      LessTotal(a[0], a[0]);
      assert a[0] !in a[1..] && b[0] !in b[1..];
      forall k ensures k in a[1..] <==> k in b[1..] {
        assert k in a <==> k == a[0] || k in a[1..];
        assert k in b <==> k == b[0] || k in b[1..];
      }
      SortedOnce(a[1..], b[1..]);
    }
  }

  lemma SameEmptiness(a: seq<string>, b: seq<string>)
    requires forall k :: k in a <==> k in b
    ensures a == [] <==> b == []
  {
    if a != [] {
      assert a[0] in b;
    }
    if b != [] {
      assert b[0] in a;
    }
  }

  lemma SmallestFirst(a: seq<string>, b: seq<string>)
    requires Sorted(a) && Sorted(b) && a != [] && b != [] && forall k :: k in a <==> k in b
    ensures a[0] == b[0]
  {
    hide Less;
    assert a[0] in b && b[0] in a;
    var i :| 0 <= i < |b| && b[i] == a[0];
    var j :| 0 <= j < |a| && a[j] == b[0];
    LessTotal(a[0], b[0]);
  }

  /** Sorts by insertion. */
  method SortStrings(keys: seq<string>) returns (sorted: seq<string>)
    requires forall i, j :: 0 <= i < j < |keys| ==> keys[i] != keys[j]
    ensures SortedKeys(sorted, set k | k in keys)
  {
    hide Less;
    sorted := [];
    for i := 0 to |keys|
      invariant Sorted(sorted) && forall k :: k in sorted <==> k in keys[..i]
    {
      var at := 0;
      while at < |sorted| && Less(sorted[at], keys[i])
        invariant 0 <= at <= |sorted| && forall j :: 0 <= j < at ==> Less(sorted[j], keys[i])
      {
        at := at + 1;
      }
      assert keys[..i + 1] == keys[..i] + [keys[i]];
      assert keys[i] !in keys[..i];
      ghost var before := sorted;
      InsertSorted(sorted, at, keys[i]);
      sorted := sorted[..at] + [keys[i]] + sorted[at..];
      assert before == before[..at] + before[at..];
    }
    assert keys[..|keys|] == keys;
  }

  lemma InsertSorted(sorted: seq<string>, at: nat, key: string)
    requires Sorted(sorted) && at <= |sorted| && key !in sorted
    requires forall j :: 0 <= j < at ==> Less(sorted[j], key)
    requires at < |sorted| ==> !Less(sorted[at], key)
    ensures Sorted(sorted[..at] + [key] + sorted[at..])
  {
    hide Less;
    forall j | at <= j < |sorted| ensures Less(key, sorted[j]) {
      LessTotal(key, sorted[at]);
      if at < j {
        LessTransitive(key, sorted[at], sorted[j]);
      }
    }
  }

  // ---------------------------------------------------------------- the inputs of a component

  datatype ComponentInputs = ComponentInputs(
    configHash: nat, sourceIdentity: string, overlayFileHashes: map<string, string>, manualBump: int,
      releaseVer: string)

  function FixedFields(inputs: ComponentInputs): seq<Field> {
    [Field("config_hash", Decimal(inputs.configHash)),
     Field("source_identity", inputs.sourceIdentity),
     Field("manual_bump", Signed(inputs.manualBump)),
     Field("release_ver", inputs.releaseVer)]
  }

  function OverlayFields(keys: seq<string>, overlays: map<string, string>): (fields: seq<Field>)
    requires forall k <- keys :: k in overlays
    ensures |fields| == |keys|
    ensures forall i :: 0 <= i < |keys| ==> fields[i] == Field("overlay:" + keys[i], overlays[keys[i]])
  {
    seq(|keys|, i requires 0 <= i < |keys| => Field("overlay:" + keys[i], overlays[keys[i]]))
  }

  /** The stream of the inputs, which is hashed. */
  ghost predicate Encodes(inputs: ComponentInputs, stream: string) {
    exists keys | SortedKeys(keys, inputs.overlayFileHashes.Keys) ::
      stream == Stream(FixedFields(inputs) + OverlayFields(keys, inputs.overlayFileHashes))
  }

  method CombineInputs(inputs: ComponentInputs) returns (stream: string)
    ensures Encodes(inputs, stream)
  {
    hide Written, Stream, Less;
    var overlays := inputs.overlayFileHashes;
    var fixed := FixedFields(inputs);
    stream := "";
    StreamOfNone();
    for i := 0 to |fixed|
      invariant stream == Stream(fixed[..i])
    {
      assert fixed[..i + 1] == fixed[..i] + [fixed[i]];
      StreamConcat(fixed[..i], [fixed[i]]);
      StreamOfOne(fixed[i]);
      stream := stream + Written(fixed[i]);
    }
    assert fixed[..|fixed|] == fixed;
    var keys: seq<string>, rest := [], overlays.Keys;
    while rest != {}
      invariant rest <= overlays.Keys
      invariant forall k :: k in keys <==> k in overlays.Keys - rest
      invariant forall i, j :: 0 <= i < j < |keys| ==> keys[i] != keys[j]
      decreases |rest|
    {
      var key :| key in rest;
      assert key !in keys;
      keys, rest := keys + [key], rest - {key};
    }
    keys := SortStrings(keys);
    var fields := OverlayFields(keys, overlays);
    assert fixed + fields[..0] == fixed;
    for i := 0 to |keys|
      invariant stream == Stream(fixed + fields[..i])
    {
      assert fixed + fields[..i + 1] == (fixed + fields[..i]) + [fields[i]];
      StreamConcat(fixed + fields[..i], [fields[i]]);
      StreamOfOne(fields[i]);
      stream := stream + Written(Field("overlay:" + keys[i], overlays[keys[i]]));
    }
    assert fields[..|fields|] == fields;
    assert SortedKeys(keys, overlays.Keys);
  }

  lemma StreamOfNone()
    ensures Stream([]) == ""
  {
  }

  lemma StreamOfOne(f: Field)
    ensures Stream([f]) == Written(f)
  {
    assert [f][1..] == [];
  }

  /** Equal streams come from equal inputs, and equal inputs give equal streams, in whatever
      order the map hands out its keys. */
  lemma EncodingIsExact(a: ComponentInputs, b: ComponentInputs, s: string, t: string)
    requires Encodes(a, s) && Encodes(b, t)
    ensures s == t <==> a == b
  {
    hide Less, Stream, Sorted, Decimal, Signed;
    var ka :| SortedKeys(ka, a.overlayFileHashes.Keys)
              && s == Stream(FixedFields(a) + OverlayFields(ka, a.overlayFileHashes));
    var kb :| SortedKeys(kb, b.overlayFileHashes.Keys)
              && t == Stream(FixedFields(b) + OverlayFields(kb, b.overlayFileHashes));
    if s == t {
      StreamInjective(FixedFields(a) + OverlayFields(ka, a.overlayFileHashes),
        FixedFields(b) + OverlayFields(kb, b.overlayFileHashes));
      FieldsDecide(a, b, ka, kb);
    } else if a == b {
      SortedOnce(ka, kb);
    }
  }

  lemma FieldsDecide(a: ComponentInputs, b: ComponentInputs, ka: seq<string>, kb: seq<string>)
    requires (forall k :: k in ka <==> k in a.overlayFileHashes) && (forall k :: k in kb <==> k in b.overlayFileHashes)
    requires FixedFields(a) + OverlayFields(ka, a.overlayFileHashes)
             == FixedFields(b) + OverlayFields(kb, b.overlayFileHashes)
    ensures a == b
  {
    hide Decimal, Signed;
    var fa, fb := FixedFields(a), FixedFields(b);
    var oa, ob := OverlayFields(ka, a.overlayFileHashes), OverlayFields(kb, b.overlayFileHashes);
    assert fa == (fa + oa)[..4] == (fb + ob)[..4] == fb;
    assert oa == (fa + oa)[4..] == (fb + ob)[4..] == ob;
    assert fa[0] == fb[0] && fa[1] == fb[1] && fa[2] == fb[2] && fa[3] == fb[3];
    DecimalInjective(a.configHash, b.configHash);
    SignedInjective(a.manualBump, b.manualBump);
    forall i | 0 <= i < |ka| ensures ka[i] == kb[i] {
      assert oa[i].name == ob[i].name;
      assert ("overlay:" + ka[i])[8..] == ka[i] && ("overlay:" + kb[i])[8..] == kb[i];
    }
    assert ka == kb;
    SameOverlays(a.overlayFileHashes, b.overlayFileHashes, ka);
  }

  lemma SameOverlays(a: map<string, string>, b: map<string, string>, keys: seq<string>)
    requires (forall k :: k in keys <==> k in a) && (forall k :: k in keys <==> k in b)
    requires OverlayFields(keys, a) == OverlayFields(keys, b)
    ensures a == b
  {
    forall k | k in a ensures a[k] == b[k] {
      var i :| 0 <= i < |keys| && keys[i] == k;
      assert OverlayFields(keys, a)[i] == OverlayFields(keys, b)[i];
    }
    assert a.Keys == b.Keys;
  }

  // ---------------------------------------------------------------- the inputs of a resolution

  datatype ResolutionInputs = ResolutionInputs(
    snapshot: string, distroName: string, distroVersion: string, distGitBranch: string,
    distGitBaseURI: string, upstreamCommitPin: string, upstreamName: string)

  /** The stream of the inputs, which is hashed. */
  function ResolutionStream(r: ResolutionInputs): string {
    Stream([Field("snapshot", r.snapshot), Field("distro_name", r.distroName), Field("distro_version", r.distroVersion),
            Field("dist_git_branch", r.distGitBranch), Field("dist_git_base_uri", r.distGitBaseURI),
            Field("upstream_commit_pin", r.upstreamCommitPin), Field("upstream_name", r.upstreamName)])
  }

  lemma ResolutionStreamInjective(a: ResolutionInputs, b: ResolutionInputs)
    requires ResolutionStream(a) == ResolutionStream(b)
    ensures a == b
  {
    hide Stream;
    var fs := [Field("snapshot", a.snapshot), Field("distro_name", a.distroName),
      Field("distro_version", a.distroVersion),
               Field("dist_git_branch", a.distGitBranch), Field("dist_git_base_uri", a.distGitBaseURI),
               Field("upstream_commit_pin", a.upstreamCommitPin), Field("upstream_name", a.upstreamName)];
    var gs := [Field("snapshot", b.snapshot), Field("distro_name", b.distroName),
      Field("distro_version", b.distroVersion),
               Field("dist_git_branch", b.distGitBranch), Field("dist_git_base_uri", b.distGitBaseURI),
               Field("upstream_commit_pin", b.upstreamCommitPin), Field("upstream_name", b.upstreamName)];
    StreamInjective(fs, gs);
    assert fs[0] == gs[0] && fs[1] == gs[1] && fs[2] == gs[2] && fs[3] == gs[3] && fs[4] == gs[4] && fs[5] == gs[5]
      && fs[6] == gs[6];
  }

  // ---------------------------------------------------------------- what a stream says

  /** The number that digits stand for. */
  function Value(digits: string): int {
    if digits == "" then 0 else 10 * Value(digits[..|digits| - 1]) + (digits[|digits| - 1] as int - '0' as int)
  }

  /** Numbers are written in decimal. */
  lemma {:induction false} DecimalValue(n: nat)
    ensures Value(Decimal(n)) == n && (n > 0 ==> Decimal(n)[0] != '0')
  {
    if n < 10 {
      assert [Digit(n)][..0] == "";
    } else {
      var s := Decimal(n);
      assert s[..|s| - 1] == Decimal(n / 10);
      DecimalValue(n / 10);
    }
  }

  /** One field as it is written. */
  lemma FieldAsWritten()
    ensures Written(Field("manual_bump", Signed(-3))) == "11:manual_bump=2:-3\n"
  {
    assert Decimal(1) == "1" && Decimal(11) == "11" && Decimal(2) == "2" && Signed(-3) == "-3";
  }

  /** Each input is under its own label, and there is nothing else. */
  predicate Says(fields: seq<Field>, inputs: ComponentInputs) {
    && Field("config_hash", Decimal(inputs.configHash)) in fields
    && Field("source_identity", inputs.sourceIdentity) in fields
    && Field("manual_bump", Signed(inputs.manualBump)) in fields
    && Field("release_ver", inputs.releaseVer) in fields
    && (forall k <- inputs.overlayFileHashes :: Field("overlay:" + k, inputs.overlayFileHashes[k]) in fields)
    && |fields| == 4 + |inputs.overlayFileHashes|
  }

  /** Whatever fields a stream of the inputs is read as, they say the inputs. */
  lemma StreamSays(inputs: ComponentInputs, stream: string, fields: seq<Field>)
    requires Encodes(inputs, stream) && Stream(fields) == stream
    ensures Says(fields, inputs)
  {
    hide Stream, Sorted, Less, Says, FixedFields, OverlayFields;
    var overlays := inputs.overlayFileHashes;
    var keys :| SortedKeys(keys, overlays.Keys)
      && stream == Stream(FixedFields(inputs) + OverlayFields(keys, overlays));
    StreamInjective(fields, FixedFields(inputs) + OverlayFields(keys, overlays));
    FieldsSay(inputs, keys);
  }

  lemma FieldsSay(inputs: ComponentInputs, keys: seq<string>)
    requires SortedKeys(keys, inputs.overlayFileHashes.Keys)
    ensures Says(FixedFields(inputs) + OverlayFields(keys, inputs.overlayFileHashes), inputs)
  {
    hide Less, FixedFields, OverlayFields, Decimal, Signed;
    var overlays := inputs.overlayFileHashes;
    AllFixed(inputs);
    forall i, j | 0 <= i < j < |keys| ensures keys[i] != keys[j] {
      LessTotal(keys[i], keys[j]);
    }
    forall k | k in overlays ensures Field("overlay:" + k, overlays[k]) in OverlayFields(keys, overlays) {
      OverlayIsThere(keys, overlays, k);
    }
    KeysCounted(keys, overlays.Keys);
  }

  lemma AllFixed(inputs: ComponentInputs)
    ensures var fields := FixedFields(inputs);
            && |fields| == 4
            && Field("config_hash", Decimal(inputs.configHash)) in fields
            && Field("source_identity", inputs.sourceIdentity) in fields
            && Field("manual_bump", Signed(inputs.manualBump)) in fields
            && Field("release_ver", inputs.releaseVer) in fields
  {
    hide Decimal, Signed;
  }

  lemma OverlayIsThere(keys: seq<string>, overlays: map<string, string>, k: string)
    requires (forall key <- keys :: key in overlays) && k in keys
    ensures Field("overlay:" + k, overlays[k]) in OverlayFields(keys, overlays)
  {
    var i :| 0 <= i < |keys| && keys[i] == k;
    assert OverlayFields(keys, overlays)[i] in OverlayFields(keys, overlays);
  }

  lemma {:induction false} KeysCounted(keys: seq<string>, all: set<string>)
    requires (forall k :: k in keys <==> k in all) && forall i, j :: 0 <= i < j < |keys| ==> keys[i] != keys[j]
    ensures |keys| == |all|
  {
    if keys == [] {
      assert all == {};
    } else {
      var last := keys[|keys| - 1];
      assert last in keys;
      forall k ensures k in keys[..|keys| - 1] <==> k in all - {last} {
        if k in all - {last} {
          var i :| 0 <= i < |keys| && keys[i] == k;
          assert keys[..|keys| - 1][i] == k;
        }
      }
      KeysCounted(keys[..|keys| - 1], all - {last});
    }
  }

  /** The same for the inputs of a resolution. */
  lemma ResolutionSays(r: ResolutionInputs, fields: seq<Field>)
    requires Stream(fields) == ResolutionStream(r)
    ensures |fields| == 7 && fields[0] == Field("snapshot", r.snapshot)
            && fields[1] == Field("distro_name", r.distroName)
    ensures fields[2] == Field("distro_version", r.distroVersion)
            && fields[3] == Field("dist_git_branch", r.distGitBranch)
    ensures fields[4] == Field("dist_git_base_uri", r.distGitBaseURI)
    ensures fields[5] == Field("upstream_commit_pin", r.upstreamCommitPin)
            && fields[6] == Field("upstream_name", r.upstreamName)
  {
    hide Stream;
    StreamInjective(fields, [Field("snapshot", r.snapshot), Field("distro_name", r.distroName),
                             Field("distro_version", r.distroVersion), Field("dist_git_branch", r.distGitBranch),
                             Field("dist_git_base_uri", r.distGitBaseURI),
                             Field("upstream_commit_pin", r.upstreamCommitPin),
                               Field("upstream_name", r.upstreamName)]);
  }
}
