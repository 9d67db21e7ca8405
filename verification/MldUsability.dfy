/** When the links of one AP MLD may be used together. */
module MldUsability {

  datatype SecMode =
    | NoSecurity | Owe | WpaPsk | Wpa2Psk | WpaWpa2Psk | Wpa3Sae | Wpa2Wpa3
    | Unmanaged(id: nat)  // WEP, enterprise, unknown and unsupported modes

  datatype SecConf = SecConf(mode: SecMode, sae: string, key: string, psk: string)

  /** One link of an MLD: whether it meets the basic conditions, its SSID and its AP's security. */
  datatype LinkConf = LinkConf(basic: bool, ssid: string, sec: SecConf)

  // ---------- wld_ap_sec_checkSharedSecConfigs ----------

  datatype Comb = Comb(mixed: SecMode, shared: SecMode, compl: SecMode)

  const COMBS := [
    Comb(WpaWpa2Psk, WpaPsk, Wpa2Psk),
    Comb(WpaWpa2Psk, Wpa2Psk, WpaPsk),
    Comb(WpaWpa2Psk, WpaWpa2Psk, Wpa2Psk),
    Comb(Wpa2Wpa3, Wpa2Psk, Wpa3Sae),
    Comb(Wpa2Wpa3, Wpa3Sae, Wpa2Psk),
    Comb(Wpa2Wpa3, Wpa2Wpa3, Wpa3Sae)]

  /** Does the row fit the two modes, in either order? */
  predicate Fits(c: Comb, m1: SecMode, m2: SecMode) {
    (m1 == c.mixed && m2 == c.shared) || (m2 == c.mixed && m1 == c.shared)
  }

  datatype Match = NoMatch | Match(shared: SecMode, compl: SecMode)

  /** The first fitting row of the table, or one common mode. */
  function CompareModes(m1: SecMode, m2: SecMode): Match {
    if Fits(COMBS[0], m1, m2) then Match(COMBS[0].shared, COMBS[0].compl)
    else if Fits(COMBS[1], m1, m2) then Match(COMBS[1].shared, COMBS[1].compl)
    else if Fits(COMBS[2], m1, m2) then Match(COMBS[2].shared, COMBS[2].compl)
    else if Fits(COMBS[3], m1, m2) then Match(COMBS[3].shared, COMBS[3].compl)
    else if Fits(COMBS[4], m1, m2) then Match(COMBS[4].shared, COMBS[4].compl)
    else if Fits(COMBS[5], m1, m2) then Match(COMBS[5].shared, COMBS[5].compl)
    else if m1 == m2 then Match(m1, Unmanaged(0))
    else NoMatch
  }

  /** s_compareSecModes: the scan of the table. */
  method CompareSecModes(m1: SecMode, m2: SecMode) returns (r: Match)
    ensures r == CompareModes(m1, m2)
  {
    for i := 0 to |COMBS|
      invariant forall j :: 0 <= j < i ==> !Fits(COMBS[j], m1, m2)
    {
      if Fits(COMBS[i], m1, m2) {
        return Match(COMBS[i].shared, COMBS[i].compl);
      }
    }
    r := if m1 == m2 then Match(m1, Unmanaged(0)) else NoMatch;
  }

  /** The credentials of two APs agree, as seen from the one that sets the reference. */
  predicate SameCredential(ref: SecConf, a: SecConf, b: SecConf, withSae: bool) {
    if withSae then
      if ref.sae != "" then a.sae == b.sae else ref.key != "" && a.key == b.key
    else
      if ref.key != "" then a.key == b.key else ref.psk != "" && a.psk == b.psk
  }

  /** wld_ap_sec_checkSharedSecConfigs. */
  predicate Shared(a: SecConf, b: SecConf) {
    match CompareModes(a.mode, b.mode)
    case NoMatch => false
    case Match(shared, compl) =>
      (a.mode == shared || b.mode == shared) &&
      var ref := if a.mode == shared then a else b;
      match shared
      case NoSecurity => true
      case Owe => true
      case Unmanaged(_) => false
      case _ => SameCredential(ref, a, b, shared == Wpa3Sae || compl == Wpa3Sae)
  }

  // ---------- wld_apMld_hasSharedConnectionConf ----------

  /** The neighbour is basic, and agrees with the link in SSID and security. */
  predicate Agrees(ng: LinkConf, l: LinkConf) {
    ng.basic && ng.ssid == l.ssid && Shared(ng.sec, l.sec)
  }

  /** The link is basic and all basic links of its MLD, itself included, agree with it. */
  ghost predicate Usable(ls: seq<LinkConf>, l: LinkConf) {
    l.basic && forall ng :: ng in ls && ng.basic ==> Agrees(ng, l)
  }

  function CountBasic(ls: seq<LinkConf>): nat {
    if ls == [] then 0 else CountBasic(ls[..|ls| - 1]) + if ls[|ls| - 1].basic then 1 else 0
  }

  function CountAgreeing(ls: seq<LinkConf>, l: LinkConf): nat {
    if ls == [] then 0 else CountAgreeing(ls[..|ls| - 1], l) + if Agrees(ls[|ls| - 1], l) then 1 else 0
  }

  lemma {:induction false} CountsCompare(ls: seq<LinkConf>, l: LinkConf)
    ensures CountAgreeing(ls, l) <= CountBasic(ls)
    ensures CountAgreeing(ls, l) == CountBasic(ls) <==> forall ng :: ng in ls && ng.basic ==> Agrees(ng, l)
    ensures CountBasic(ls) > 0 <==> exists ng :: ng in ls && ng.basic
  {
    if ls != [] {
      var n := |ls| - 1;
      CountsCompare(ls[..n], l);
      assert forall ng :: ng in ls <==> ng in ls[..n] || ng == ls[n];
    }
  }

  /** wld_apMld_hasSharedConnectionConf: two counters over the neighbours, compared at the end. */
  method HasSharedConnectionConf(ls: seq<LinkConf>, l: LinkConf) returns (r: bool)
    requires l in ls
    ensures r <==> Usable(ls, l)
  {
    if !l.basic {
      return false;
    }
    var countUsable, countSharedConf := 0, 0;
    for i := 0 to |ls|
      invariant countUsable == CountBasic(ls[..i]) && countSharedConf == CountAgreeing(ls[..i], l)
    {
      assert ls[..i + 1][..i] == ls[..i];
      if ls[i].basic {
        countUsable := countUsable + 1;
        if ls[i].ssid == l.ssid && Shared(ls[i].sec, l.sec) {
          countSharedConf := countSharedConf + 1;
        }
      }
    }
    assert ls[..|ls|] == ls;
    CountsCompare(ls, l);
    r := countUsable > 0 && countSharedConf > 0 && countUsable == countSharedConf;
  }

  ghost function CountUsable(ls: seq<LinkConf>, all: seq<LinkConf>): nat {
    if ls == [] then 0 else CountUsable(ls[..|ls| - 1], all) + if Usable(all, ls[|ls| - 1]) then 1 else 0
  }

  /** The places of the usable links of the list, among the first `n`. */
  ghost function UsablePlaces(ls: seq<LinkConf>, n: nat): set<nat>
    requires n <= |ls|
  {
    set i: nat | i < n && Usable(ls, ls[i])
  }

  lemma {:induction false} CountIsPlaces(ls: seq<LinkConf>, n: nat)
    requires n <= |ls|
    ensures CountUsable(ls[..n], ls) == |UsablePlaces(ls, n)|
  {
    hide Usable;
    if n > 0 {
      CountIsPlaces(ls, n - 1);
      assert ls[..n][..n - 1] == ls[..n - 1] && ls[..n][n - 1] == ls[n - 1];
      assert UsablePlaces(ls, n) == UsablePlaces(ls, n - 1) + if Usable(ls, ls[n - 1]) then {n - 1} else {};
    }
  }

  /** wld_mld_countNeighUsableLinks. */
  method CountNeighUsableLinks(ls: seq<LinkConf>) returns (count: nat)
    ensures count == CountUsable(ls, ls)
  {
    count := 0;
    for i := 0 to |ls|
      invariant count == CountUsable(ls[..i], ls)
    {
      assert ls[..i + 1][..i] == ls[..i];
      var usable := HasSharedConnectionConf(ls, ls[i]);
      if usable { count := count + 1; }
    }
    assert ls[..|ls|] == ls;
  }

  /** That is, for every MLD, the number of places in its list whose link is usable. */
  lemma UsableIsCounted(ls: seq<LinkConf>)
    ensures CountUsable(ls, ls) == |set i: nat | i < |ls| && Usable(ls, ls[i])|
  {
    CountIsPlaces(ls, |ls|);
    assert ls[..|ls|] == ls;
    assert UsablePlaces(ls, |ls|) == set i: nat | i < |ls| && Usable(ls, ls[i]);
  }

  // ---------- all or nothing ----------

  /** Either every basic link of the MLD is usable, or none is. */
  ghost predicate AllOrNothing(ls: seq<LinkConf>) {
    forall a, b :: a in ls && b in ls && a.basic && b.basic ==> (Usable(ls, a) <==> Usable(ls, b))
  }

  /** The check is symmetric and transitive among the basic links of the MLD. */
  ghost predicate Coherent(ls: seq<LinkConf>) {
    && (forall a, b :: a in ls && b in ls && a.basic && b.basic && Shared(a.sec, b.sec) ==> Shared(b.sec, a.sec))
    && (forall a, b, c :: a in ls && b in ls && c in ls && a.basic && b.basic && c.basic ==>
          Shared(a.sec, b.sec) && Shared(b.sec, c.sec) ==> Shared(a.sec, c.sec))
  }

  lemma CoherentIsAllOrNothing(ls: seq<LinkConf>)
    requires Coherent(ls)
    ensures AllOrNothing(ls)
  {
    forall a, b | a in ls && b in ls && a.basic && b.basic && Usable(ls, a) ensures Usable(ls, b) {
      forall ng | ng in ls && ng.basic ensures Agrees(ng, b) {
        assert Agrees(ng, a) && Agrees(b, a);
        assert Shared(a.sec, b.sec);
      }
    }
  }

  /** All-or-nothing, as a count: an MLD reports no usable link, or all that are basic. */
  lemma {:induction false} UsableCount(ls: seq<LinkConf>)
    requires AllOrNothing(ls)
    ensures CountUsable(ls, ls) in {0, CountBasic(ls)}
  {
    if x :| x in ls && x.basic && Usable(ls, x) {
      CountIfAll(ls, ls, true);
    } else {
      CountIfAll(ls, ls, false);
    }
  }

  lemma {:induction false} CountIfAll(ls: seq<LinkConf>, all: seq<LinkConf>, u: bool)
    requires forall x :: x in ls && x.basic ==> (Usable(all, x) <==> u)
    ensures CountUsable(ls, all) == if u then CountBasic(ls) else 0
  {
    hide Usable;
    if ls != [] {
      assert ls[|ls| - 1] in ls;
      forall x | x in ls[..|ls| - 1] ensures x in ls {}
      NotBasicNotUsable(all, ls[|ls| - 1]);
      CountIfAll(ls[..|ls| - 1], all, u);
    }
  }

  lemma NotBasicNotUsable(all: seq<LinkConf>, l: LinkConf)
    ensures Usable(all, l) ==> l.basic
  {
  }

  // ---------- when the check is coherent ----------

  predicate WithSae(m: SecMode) {
    m == Wpa3Sae || m == Wpa2Wpa3
  }

  predicate WithPsk(m: SecMode) {
    m == WpaPsk || m == Wpa2Psk || m == WpaWpa2Psk
  }

  /** One AP has the preferred credential of the common mode and the other has not, while
      the one they would fall back on agrees. */
  predicate FallbackClash(a: SecConf, b: SecConf) {
    a.mode == b.mode &&
    if WithSae(a.mode) then (a.sae == "") != (b.sae == "") && a.key == b.key && a.key != ""
    else WithPsk(a.mode) && (a.key == "") != (b.key == "") && a.psk == b.psk && a.psk != ""
  }

  /** The check gives the same answer both ways exactly when the two do not clash. */
  lemma SymmetricExactly(a: SecConf, b: SecConf)
    ensures (Shared(a, b) <==> Shared(b, a)) <==> !FallbackClash(a, b)
  {
  }

  // ---------- exactly when an MLD splits ----------

  /** The two modes that a mixed mode joins. */
  predicate Mixes(mixed: SecMode, pure: SecMode) {
    || (mixed == WpaWpa2Psk && (pure == WpaPsk || pure == Wpa2Psk))
    || (mixed == Wpa2Wpa3 && (pure == Wpa2Psk || pure == Wpa3Sae))
  }

  predicate Open(m: SecMode) {
    m == NoSecurity || m == Owe
  }

  /** `o` has the key passphrase of `r`, or its pre-shared key when `r` has none. */
  predicate KeyThenPsk(r: SecConf, o: SecConf) {
    if r.key != "" then o.key == r.key else r.psk != "" && o.psk == r.psk
  }

  /** `o` has the SAE passphrase of `r`, or its key passphrase when `r` has none. */
  predicate SaeThenKey(r: SecConf, o: SecConf) {
    if r.sae != "" then o.sae == r.sae else r.key != "" && o.key == r.key
  }

  /** The credentials that count for the two modes, as seen from the one that sets the reference. */
  predicate Takes(r: SecConf, o: SecConf) {
    if WithSae(r.mode) || WithSae(o.mode) then SaeThenKey(r, o) else KeyThenPsk(r, o)
  }

  /** What the table comes to: equal modes, or a mixed mode and one of its two, which then sets the reference. */
  lemma SharedByModes(a: SecConf, b: SecConf)
    ensures
      Shared(a, b) <==>
      || (Open(a.mode) && a.mode == b.mode)
      || (Mixes(a.mode, b.mode) && Takes(b, a))
      || ((Mixes(b.mode, a.mode) || (a.mode == b.mode && !Open(a.mode) && !a.mode.Unmanaged?)) && Takes(a, b))
  {
  }

  /** The basic link `x` leaves the link `a` usable: for each mode of `a`, the modes that can stand beside it. */
  predicate Beside(x: LinkConf, a: LinkConf) {
    var s, t := a.sec, x.sec;
    x.ssid == a.ssid &&
    match s.mode
    case NoSecurity => t.mode == NoSecurity
    case Owe => t.mode == Owe
    case WpaPsk => (t.mode == WpaPsk && KeyThenPsk(t, s)) || (t.mode == WpaWpa2Psk && KeyThenPsk(s, t))
    case Wpa2Psk =>
      || (t.mode == Wpa2Psk && KeyThenPsk(t, s))
      || (t.mode == WpaWpa2Psk && KeyThenPsk(s, t))
      || (t.mode == Wpa2Wpa3 && SaeThenKey(s, t))
    case WpaWpa2Psk => WithPsk(t.mode) && KeyThenPsk(t, s)
    case Wpa3Sae => (t.mode == Wpa3Sae && SaeThenKey(t, s)) || (t.mode == Wpa2Wpa3 && SaeThenKey(s, t))
    case Wpa2Wpa3 => (WithSae(t.mode) || t.mode == Wpa2Psk) && SaeThenKey(t, s)
    case Unmanaged(_) => false
  }

  /** Two modes that can both stand beside a third, but not beside each other. */
  predicate ModesPart(m1: SecMode, m2: SecMode) {
    || (m1 == WpaPsk && m2 == Wpa2Psk)
    || (m1 == Wpa2Psk && m2 == Wpa3Sae)
    || (m1 == WpaWpa2Psk && m2 == Wpa2Wpa3)
  }

  /** The credential compared first in one mode, and the one it falls back on. */
  function Preferred(s: SecConf): string {
    if WithSae(s.mode) then s.sae else s.key
  }

  function Fallback(s: SecConf): string {
    if WithSae(s.mode) then s.key else s.psk
  }

  /** Two configurations that do not agree: by their modes; in one mode, by different preferred
      credentials, or by fallback ones when both lack a preferred one; across a mixed mode and
      one of its two, by the credentials of that one. */
  predicate Part(b: SecConf, c: SecConf) {
    || ModesPart(b.mode, c.mode)
    || (b.mode == c.mode && (WithSae(b.mode) || WithPsk(b.mode))
        && (Preferred(b) != Preferred(c) || (Preferred(b) == "" && (Fallback(b) == "" || Fallback(b) != Fallback(c)))))
    || (Mixes(b.mode, c.mode) && !Takes(c, b))
  }

  /** All basic links can stand beside `a`, and `b` and `c`, two of them, part. */
  ghost predicate Splits(ls: seq<LinkConf>, a: LinkConf, b: LinkConf, c: LinkConf) {
    && a in ls && b in ls && c in ls && a.basic && b.basic && c.basic
    && (forall x :: x in ls && x.basic ==> Beside(x, a))
    && Part(b.sec, c.sec)
  }

  lemma BesideExactly(x: LinkConf, a: LinkConf)
    requires x.basic
    ensures Beside(x, a) <==> Agrees(x, a)
  {
    hide CompareModes, Shared;
    SharedByModes(x.sec, a.sec);
  }

  /** Configurations that can stand beside a third agree both ways exactly when they do not part. */
  lemma PartExactly(a: LinkConf, b: LinkConf, c: LinkConf)
    requires Beside(b, a) && Beside(c, a)
    ensures Shared(b.sec, c.sec) && Shared(c.sec, b.sec) <==> !Part(b.sec, c.sec) && !Part(c.sec, b.sec)
  {
    hide Shared, KeyThenPsk, SaeThenKey;
    SharedByModes(b.sec, c.sec);
    SharedByModes(c.sec, b.sec);
    if b.sec.mode == c.sec.mode { SameModeTakes(b.sec, c.sec); }
  }

  /** In one mode the two directions fail together exactly as Part says. */
  lemma SameModeTakes(b: SecConf, c: SecConf)
    requires b.mode == c.mode
    ensures Takes(b, c) && Takes(c, b) <==>
            !(Preferred(b) != Preferred(c) || (Preferred(b) == "" && (Fallback(b) == "" || Fallback(b) != Fallback(c))))
  {
  }

  /** For every MLD, of one security mode or several: usability is all-or-nothing if and only
      if no three basic links are such that all can stand beside the first while the other two part. */
  lemma AllOrNothingExactly(ls: seq<LinkConf>)
    ensures AllOrNothing(ls) <==> !exists a, b, c :: Splits(ls, a, b, c)
  {
    hide Beside, Part, Shared, Agrees;
    if a, b, c :| Splits(ls, a, b, c) {
      SplitIsNotAll(ls, a, b, c);
    }
    if a, b :| a in ls && b in ls && a.basic && b.basic && Usable(ls, a) && !Usable(ls, b) {
      var c :| c in ls && c.basic && !Agrees(c, b);
      NotAllIsSplit(ls, a, b, c);
    }
  }

  lemma SplitIsNotAll(ls: seq<LinkConf>, a: LinkConf, b: LinkConf, c: LinkConf)
    requires Splits(ls, a, b, c)
    ensures Usable(ls, a) && !(Usable(ls, b) && Usable(ls, c))
  {
    hide Beside, Part, Shared;
    forall x | x in ls && x.basic ensures Agrees(x, a) {
      BesideExactly(x, a);
    }
    PartExactly(a, b, c);
  }

  lemma NotAllIsSplit(ls: seq<LinkConf>, a: LinkConf, b: LinkConf, c: LinkConf)
    requires a in ls && b in ls && c in ls && b.basic && c.basic && Usable(ls, a) && !Agrees(c, b)
    ensures Splits(ls, a, b, c) || Splits(ls, a, c, b)
  {
    hide Beside, Part, Shared;
    forall x | x in ls && x.basic ensures Beside(x, a) {
      BesideExactly(x, a);
    }
    assert Agrees(b, a) && Agrees(c, a) && b.ssid == c.ssid;
    PartExactly(a, b, c);
  }

  /** In one security mode: `a` has both credentials, `b` lacks the preferred one, and every
      basic link has the SSID of `a` and its preferred credential, or lacks one and has its fallback. */
  ghost predicate Divides(ls: seq<LinkConf>, a: LinkConf, b: LinkConf) {
    && a in ls && b in ls && a.basic && b.basic
    && (WithSae(a.sec.mode) || WithPsk(a.sec.mode))
    && Preferred(a.sec) != "" && Fallback(a.sec) != "" && Preferred(b.sec) == ""
    && (forall x :: x in ls && x.basic ==> Shadows(x, a))
  }

  predicate Shadows(x: LinkConf, a: LinkConf) {
    && x.ssid == a.ssid
    && (Preferred(x.sec) == Preferred(a.sec) || (Preferred(x.sec) == "" && Fallback(x.sec) == Fallback(a.sec)))
  }

  /** In an MLD with one security mode, usability is all-or-nothing if and only if no link
      divides it from another. Without a credential to compare, it always is. */
  lemma OneModeExactly(ls: seq<LinkConf>, m: SecMode)
    requires forall x :: x in ls && x.basic ==> x.sec.mode == m
    ensures AllOrNothing(ls) <==> !exists a, b :: Divides(ls, a, b)
    ensures !WithSae(m) && !WithPsk(m) ==> AllOrNothing(ls)
  {
    hide Beside, Part, Usable, AllOrNothing, Shadows;
    AllOrNothingExactly(ls);
    if a, b :| Divides(ls, a, b) {
      DividesSplits(ls, a, b);
    }
    if a, b, c :| Splits(ls, a, b, c) {
      SplitsDivide(ls, a, b, c);
    }
  }

  lemma DividesSplits(ls: seq<LinkConf>, a: LinkConf, b: LinkConf)
    requires Divides(ls, a, b) && forall x :: x in ls && x.basic ==> x.sec.mode == a.sec.mode
    ensures Splits(ls, a, b, a)
  {
    hide Beside;
    forall x | x in ls && x.basic ensures Beside(x, a) {
      assert Shadows(x, a);
      OneModeBeside(x, a);
    }
  }

  lemma OneModeBeside(x: LinkConf, a: LinkConf)
    requires x.sec.mode == a.sec.mode && (WithSae(a.sec.mode) || WithPsk(a.sec.mode))
    ensures
      Beside(x, a) <==>
      x.ssid == a.ssid && if Preferred(x.sec) != "" then Preferred(x.sec) == Preferred(a.sec)
                          else Fallback(x.sec) != "" && Fallback(x.sec) == Fallback(a.sec)
  {
  }

  lemma SplitsDivide(ls: seq<LinkConf>, a: LinkConf, b: LinkConf, c: LinkConf)
    requires Splits(ls, a, b, c) && forall x :: x in ls && x.basic ==> x.sec.mode == a.sec.mode
    ensures (WithSae(a.sec.mode) || WithPsk(a.sec.mode)) && (Divides(ls, a, b) || Divides(ls, a, c))
  {
    hide Beside;
    assert b.sec.mode == a.sec.mode && c.sec.mode == a.sec.mode;
    OneModeBeside(b, a);
    OneModeBeside(c, a);
    forall x | x in ls && x.basic ensures Shadows(x, a) {
      OneModeBeside(x, a);
    }
  }

  lemma OneUsable(ls: seq<LinkConf>, k: nat)
    requires k < |ls| && forall i :: 0 <= i < |ls| ==> (Usable(ls, ls[i]) <==> i == k)
    ensures CountUsable(ls, ls) == 1
  {
    hide Usable;
    CountIsPlaces(ls, |ls|);
    assert ls[..|ls|] == ls && UsablePlaces(ls, |ls|) == {k};
  }

  /** The check is not transitive: a mixed WPA2-WPA3 link agrees with a WPA2 and with a WPA3
      link that do not agree with each other. It is usable and they are not. */
  lemma MixedModeSplitsMld()
    ensures
      var a := LinkConf(true, "net", SecConf(Wpa2Psk, "pass", "pass", ""));
      var b := LinkConf(true, "net", SecConf(Wpa2Wpa3, "pass", "pass", ""));
      var c := LinkConf(true, "net", SecConf(Wpa3Sae, "pass", "pass", ""));
      Splits([a, b, c], b, a, c) && Usable([a, b, c], b) && !AllOrNothing([a, b, c])
      && !Usable([a, b, c], a) && !Usable([a, b, c], c) && CountUsable([a, b, c], [a, b, c]) == 1
  {
    var a := LinkConf(true, "net", SecConf(Wpa2Psk, "pass", "pass", ""));
    var b := LinkConf(true, "net", SecConf(Wpa2Wpa3, "pass", "pass", ""));
    var c := LinkConf(true, "net", SecConf(Wpa3Sae, "pass", "pass", ""));
    hide Usable, AllOrNothing;
    assert Splits([a, b, c], b, a, c);
    SplitIsNotAll([a, b, c], b, a, c);
    AllOrNothingExactly([a, b, c]);
    ModesApart([a, b, c], a, c);
    ModesApart([a, b, c], c, a);
    OneUsable([a, b, c], 1);
  }

  lemma ModesApart(ls: seq<LinkConf>, x: LinkConf, y: LinkConf)
    requires x in ls && y in ls && x.basic && y.basic &&
      (ModesPart(x.sec.mode, y.sec.mode) || ModesPart(y.sec.mode, x.sec.mode))
    ensures !Usable(ls, x)
  {
    BesideExactly(y, x);
    hide Agrees;
  }

  /** The check is not symmetric: with WPA3, an AP that has an SAE passphrase finds one that
      only has the same key passphrase in agreement, and not the other way round. */
  lemma FallbackSplitsMld()
    ensures
      var a := LinkConf(true, "net", SecConf(Wpa3Sae, "sae", "key", ""));
      var b := LinkConf(true, "net", SecConf(Wpa3Sae, "", "key", ""));
      Divides([a, b], a, b) && Usable([a, b], a) && !Usable([a, b], b) && !AllOrNothing([a, b])
      && CountUsable([a, b], [a, b]) == 1
  {
    var a := LinkConf(true, "net", SecConf(Wpa3Sae, "sae", "key", ""));
    var b := LinkConf(true, "net", SecConf(Wpa3Sae, "", "key", ""));
    hide Usable, AllOrNothing;
    assert Divides([a, b], a, b);
    OneModeExactly([a, b], Wpa3Sae);
    DividesSplits([a, b], a, b);
    SplitIsNotAll([a, b], a, b, a);
    OneUsable([a, b], 0);
  }
}
