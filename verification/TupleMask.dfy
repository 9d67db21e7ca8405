/**
 * Tables that name the bits of a 64-bit mask, and the conversions between a
 * mask and its comma separated names. A mask is the set of its bit positions.
 */
module TupleMask {
  import opened Collections

  datatype Tuple = Tuple(id: set<nat>, name: string)

  // ---------- lookups ----------

  function FindId(list: seq<Tuple>, id: set<nat>): (r: Option<Tuple>)
    ensures r.Some? ==> r.value in list && r.value.id == id
    ensures r.None? ==> forall t <- list :: t.id != id
  {
    if list == [] then None else if list[0].id == id then Some(list[0]) else FindId(list[1..], id)
  }

  function FindName(list: seq<Tuple>, name: string): (r: Option<Tuple>)
    ensures r.Some? ==> r.value in list && r.value.name == name
    ensures r.None? ==> forall t <- list :: t.name != name
  {
    if list == [] then None else if list[0].name == name then Some(list[0]) else FindName(list[1..], name)
  }

  method GetTupleById(list: seq<Tuple>, id: set<nat>) returns (r: Option<Tuple>)
    ensures r == FindId(list, id)
  {
    var i := 0;
    while i < |list|
      invariant 0 <= i <= |list| && FindId(list, id) == FindId(list[i..], id)
    {
      if list[i].id == id {
        return Some(list[i]);
      }
      i := i + 1;
    }
    r := None;
  }

  method GetTupleByStr(list: seq<Tuple>, name: string) returns (r: Option<Tuple>)
    ensures r == FindName(list, name)
  {
    var i := 0;
    while i < |list|
      invariant 0 <= i <= |list| && FindName(list, name) == FindName(list[i..], name)
    {
      if list[i].name == name {
        return Some(list[i]);
      }
      i := i + 1;
    }
    r := None;
  }

  /** The bits that the table has a name of their own for. */
  ghost function Printable(list: seq<Tuple>): set<nat> {
    set i | 0 <= i < 64 && FindId(list, {i}).Some?
  }

  // ---------- printing ----------

  /** Appends one name: the comma is left out while nothing is printed yet. */
  function Append(names: string, name: string): string {
    if names == "" then name else names + "," + name
  }

  lemma AppendIsConcat(names: string, name: string)
    ensures names + (if names == "" then "" else ",") + name == Append(names, name)
  {
    assert names == "" ==> names + "" + name == name;
  }

  /** The names of the bits below `n`, printed. */
  function Printed(list: seq<Tuple>, mask: set<nat>, n: nat): string {
    if n == 0 then ""
    else if n - 1 in mask && FindId(list, {n - 1}).Some?
    then Append(Printed(list, mask, n - 1), FindId(list, {n - 1}).value.name)
    else Printed(list, mask, n - 1)
  }

  method ConvMaskToStr(list: seq<Tuple>, mask: set<nat>) returns (names: string, allMatched: bool)
    requires forall i <- mask :: i < 64
    ensures names == Printed(list, mask, 64)
    ensures allMatched <==> mask <= Printable(list)
    ensures Readable(list) ==> NamesInOrder(list, mask * Printable(list), names)
  {
    PrintedInOrder(list, mask);
    names, allMatched := "", true;
    if mask == {} {
      PrintedNothing(list, mask, 64);
      return;
    }
    if |list| == 0 {
      PrintedNothing(list, mask, 64);
      var i :| i in mask;
      assert i !in Printable(list);
      return names, false;
    }
    for i := 0 to 64
      invariant names == Printed(list, mask, i)
      invariant allMatched <==> forall j :: 0 <= j < i && j in mask ==> FindId(list, {j}).Some?
    {
      var id := mask * {i};
      assert i in mask <==> i in id;
      if id != {} {
        assert id == {i};
        var pTuple := GetTupleById(list, id);
        if pTuple.None? {
          allMatched := false;
        } else {
          AppendIsConcat(names, pTuple.value.name);
          names := names + (if names == "" then "" else ",") + pTuple.value.name;
        }
      }
    }
  }

  lemma {:induction false} PrintedNothing(list: seq<Tuple>, mask: set<nat>, n: nat)
    requires mask == {} || list == []
    ensures Printed(list, mask, n) == ""
  {
    if n > 0 {
      PrintedNothing(list, mask, n - 1);
    }
  }

  // ---------- parsing ----------

  /** The length of the first token. */
  function TokenLen(s: string): (k: nat)
    ensures k <= |s|
    ensures ',' !in s[..k] && (k < |s| ==> s[k] == ',')
  {
    if s == "" || s[0] == ',' then 0 else 1 + TokenLen(s[1..])
  }

  /** The tokens between the commas, empty ones included. */
  function Split(s: string): (r: seq<string>)
    decreases |s|
  {
    var k := TokenLen(s);
    if k == |s| then [s] else [s[..k]] + Split(s[k + 1..])
  }

  /** The tokens with a comma between each two. */
  function Joined(tks: seq<string>): string
    requires tks != []
  {
    if |tks| == 1 then tks[0] else tks[0] + "," + Joined(tks[1..])
  }

  /** Splitting is the one way to cut a text at all its commas. */
  lemma {:induction false} SplitExactly(s: string)
    ensures Split(s) != [] && Joined(Split(s)) == s && forall tk <- Split(s) :: ',' !in tk
    decreases |s|
  {
    hide TokenLen;
    var k := TokenLen(s);
    if k == |s| {
      assert s[..k] == s;
    } else {
      SplitExactly(s[k + 1..]);
      assert Split(s)[1..] == Split(s[k + 1..]);
      assert s == s[..k] + "," + s[k + 1..];
    }
  }

  /** What one token contributes to the mask. */
  function TokenBits(list: seq<Tuple>, tk: string): set<nat> {
    if tk != "" && FindName(list, tk).Some? then FindName(list, tk).value.id else {}
  }

  predicate Known(list: seq<Tuple>, tk: string) {
    tk == "" || FindName(list, tk).Some?
  }

  function TokensMask(list: seq<Tuple>, tks: seq<string>): (mask: set<nat>)
    ensures forall b :: b in mask <==> exists tk <- tks :: b in TokenBits(list, tk)
  {
    if tks == [] then {} else TokenBits(list, tks[0]) + TokensMask(list, tks[1..])
  }

  predicate AllKnown(list: seq<Tuple>, tks: seq<string>) {
    forall tk <- tks :: Known(list, tk)
  }

  /** The first token, and the position behind its comma, if any. */
  method StrSep(s: string) returns (tk: string, rest: Option<string>)
    ensures rest.None? ==> Split(s) == [tk]
    ensures rest.Some? ==> |rest.value| < |s| && Split(s) == [tk] + Split(rest.value)
  {
    hide TokenLen;
    var k := 0;
    while k < |s| && s[k] != ','
      invariant 0 <= k <= |s| && ',' !in s[..k]
    {
      assert s[..k + 1] == s[..k] + [s[k]];
      k := k + 1;
    }
    TokenEnds(s, k);
    assert s[..|s|] == s;
    tk, rest := s[..k], if k < |s| then Some(s[k + 1..]) else None;
  }

  lemma TokenEnds(s: string, k: nat)
    requires k <= |s| && ',' !in s[..k] && (k < |s| ==> s[k] == ',')
    ensures TokenLen(s) == k
  {
    hide TokenLen;
    var n := TokenLen(s);
    assert forall j | 0 <= j < k :: s[..k][j] == s[j];
    assert forall j | 0 <= j < n :: s[..n][j] == s[j];
  }

  /** A parse sets the bits of the known tokens, and fails on an unknown token or an empty table. */
  method ConvStrToMask(list: seq<Tuple>, names: string) returns (mask: set<nat>, allMatched: bool)
    ensures mask == TokensMask(list, Split(names))
    ensures allMatched <==> names == "" || (list != [] && AllKnown(list, Split(names)))
  {
    hide Split, FindName, TokenLen;
    mask, allMatched := {}, true;
    NothingReadsBack(list);
    if names == "" {
      return;
    }
    if |list| == 0 {
      return {}, false;
    }
    var p := Some(names);
    while p.Some?
      invariant TokensMask(list, Split(names)) == mask + if p.Some? then TokensMask(list, Split(p.value)) else {}
      invariant AllKnown(list, Split(names)) <==> allMatched && (p.Some? ==> AllKnown(list, Split(p.value)))
      decreases if p.Some? then 1 + |p.value| else 0
    {
      var here := p.value;
      var tk, rest := StrSep(here);
      TokensOf(list, tk, if rest.Some? then Split(rest.value) else []);
      assert Split(here) == [tk] + if rest.Some? then Split(rest.value) else [];
      p := rest;
      if tk == "" {
        continue;
      }
      var pTuple := GetTupleByStr(list, tk);
      if pTuple.None? {
        allMatched := false;
        continue;
      }
      mask := mask + pTuple.value.id;
    }
  }

  lemma TokensOf(list: seq<Tuple>, tk: string, tks: seq<string>)
    ensures TokensMask(list, [tk] + tks) == TokenBits(list, tk) + TokensMask(list, tks)
    ensures AllKnown(list, [tk] + tks) <==> Known(list, tk) && AllKnown(list, tks)
  {
    assert ([tk] + tks)[1..] == tks;
  }

  // ---------- the round trip ----------

  /** A table whose names can be printed and read back. */
  ghost predicate Readable(list: seq<Tuple>) {
    && (forall t <- list :: t.name != "" && ',' !in t.name)
    && (forall i, j :: 0 <= i < j < |list| ==> list[i].name != list[j].name)
  }

  lemma {:induction false} NameFinds(list: seq<Tuple>, t: Tuple)
    requires Readable(list) && t in list
    ensures FindName(list, t.name) == Some(t)
  {
    if list[0] != t {
      var i :| 0 <= i < |list| && list[i] == t;
      assert list[0].name != list[i].name;
      NameFinds(list[1..], t);
    }
  }

  lemma {:induction false} TokenLenOfWord(s: string)
    requires ',' !in s
    ensures TokenLen(s) == |s|
  {
    if s != "" {
      TokenLenOfWord(s[1..]);
    }
  }

  lemma {:induction false} TokenLenAppend(s: string, t: string)
    ensures TokenLen(s + "," + t) == TokenLen(s)
  {
    if s != "" && s[0] != ',' {
      assert (s + "," + t)[1..] == s[1..] + "," + t;
      TokenLenAppend(s[1..], t);
    }
  }

  /** Splitting what was appended gives the appended name as the last token. */
  lemma {:induction false} SplitAppend(s: string, name: string)
    requires ',' !in name
    ensures Split(s + "," + name) == Split(s) + [name]
    decreases |s|
  {
    hide Split;
    var all, k := s + "," + name, TokenLen(s);
    TokenLenAppend(s, name);
    SplitStep(all);
    SplitStep(s);
    assert all[..k] == s[..k];
    if k == |s| {
      assert all[k + 1..] == name && s[..k] == s;
      TokenLenOfWord(name);
      SplitStep(name);
    } else {
      assert all[k + 1..] == s[k + 1..] + "," + name;
      SplitAppend(s[k + 1..], name);
      assert [s[..k]] + (Split(s[k + 1..]) + [name]) == ([s[..k]] + Split(s[k + 1..])) + [name];
    }
  }

  lemma SplitStep(s: string)
    ensures Split(s) == if TokenLen(s) == |s| then [s] else [s[..TokenLen(s)]] + Split(s[TokenLen(s) + 1..])
  {
    hide TokenLen;
  }

  lemma {:induction false} TokensMaskAppend(list: seq<Tuple>, tks: seq<string>, tk: string)
    ensures TokensMask(list, tks + [tk]) == TokensMask(list, tks) + TokenBits(list, tk)
    ensures AllKnown(list, tks + [tk]) <==> AllKnown(list, tks) && Known(list, tk)
  {
  }

  /** The text lists the names of the bits, one token for each, from the lowest to the highest. */
  ghost predicate NamesInOrder(list: seq<Tuple>, bits: set<nat>, names: string) {
    if bits == {} then names == "" else exists order: seq<nat> :: NamesOf(list, bits, order, Split(names))
  }

  ghost predicate NamesOf(list: seq<Tuple>, bits: set<nat>, order: seq<nat>, tks: seq<string>) {
    && |tks| == |order| && (forall b :: b in order <==> b in bits)
    && (forall j, k :: 0 <= j < k < |order| ==> order[j] < order[k])
    && (forall j :: 0 <= j < |order| ==> FindId(list, {order[j]}) == Some(Tuple({order[j]}, tks[j])))
  }

  /** The bits below `n` that are printed. */
  ghost function PrintedBits(list: seq<Tuple>, mask: set<nat>, n: nat): set<nat> {
    set i | i in mask * Printable(list) && i < n
  }

  lemma {:induction false} PrintedSoFar(list: seq<Tuple>, mask: set<nat>, n: nat)
    requires Readable(list) && n <= 64
    ensures NamesInOrder(list, PrintedBits(list, mask, n), Printed(list, mask, n))
    ensures Printed(list, mask, n) == "" <==> PrintedBits(list, mask, n) == {}
  {
    hide Split;
    if n > 0 {
      var i, bits := n - 1, PrintedBits(list, mask, n - 1);
      PrintedSoFar(list, mask, i);
      if i in mask && FindId(list, {i}).Some? {
        assert PrintedBits(list, mask, n) == bits + {i};
        OneMoreName(list, bits, i, Printed(list, mask, i));
      } else {
        assert PrintedBits(list, mask, n) == bits;
      }
    }
  }

  lemma OneMoreName(list: seq<Tuple>, bits: set<nat>, i: nat, names: string)
    requires Readable(list) && FindId(list, {i}).Some? && (forall b :: b in bits ==> b < i)
    requires NamesInOrder(list, bits, names) && (names == "" <==> bits == {})
    ensures NamesInOrder(list, bits + {i}, Append(names, FindId(list, {i}).value.name))
    ensures Append(names, FindId(list, {i}).value.name) != ""
  {
    var t := FindId(list, {i}).value;
    assert t.name != "" && ',' !in t.name;
    if names == "" {
      TokenLenOfWord(t.name);
      assert Split(t.name) == [t.name];
      assert NamesOf(list, bits + {i}, [i], [t.name]);
    } else {
      hide Split, FindId;
      var order :| NamesOf(list, bits, order, Split(names));
      SplitAppend(names, t.name);
      OneMoreOf(list, bits, order, Split(names), i, t);
    }
  }

  lemma OneMoreOf(list: seq<Tuple>, bits: set<nat>, order: seq<nat>, tks: seq<string>, i: nat, t: Tuple)
    requires NamesOf(list, bits, order, tks) && FindId(list, {i}) == Some(t) && forall b :: b in bits ==> b < i
    ensures NamesOf(list, bits + {i}, order + [i], tks + [t.name])
  {
    hide FindId;
    assert t == Tuple({i}, t.name);
    forall j | 0 <= j < |order| ensures order[j] < i {
      assert order[j] in order;
    }
  }

  lemma PrintedInOrder(list: seq<Tuple>, mask: set<nat>)
    ensures Readable(list) ==> NamesInOrder(list, mask * Printable(list), Printed(list, mask, 64))
  {
    hide NamesInOrder, Printed;
    if Readable(list) {
      PrintedSoFar(list, mask, 64);
      assert PrintedBits(list, mask, 64) == mask * Printable(list);
    }
  }

  /** Appending one name adds its bits to what is read back. */
  lemma AppendReadsBack(list: seq<Tuple>, names: string, t: Tuple)
    requires Readable(list) && t in list
    ensures TokensMask(list, Split(Append(names, t.name))) == TokensMask(list, Split(names)) + t.id
    ensures AllKnown(list, Split(Append(names, t.name))) <==> AllKnown(list, Split(names))
  {
    NameFinds(list, t);
    if names == "" {
      TokenLenOfWord(t.name);
    } else {
      SplitAppend(names, t.name);
      TokensMaskAppend(list, Split(names), t.name);
    }
  }

  lemma {:induction false} PrintedReadsBack(list: seq<Tuple>, mask: set<nat>, n: nat)
    requires Readable(list) && n <= 64
    ensures TokensMask(list, Split(Printed(list, mask, n))) == set i | i in mask * Printable(list) && i < n
    ensures AllKnown(list, Split(Printed(list, mask, n)))
  {
    hide Append, Split, TokensMask, AllKnown;
    if n == 0 {
      NothingReadsBack(list);
    } else {
      PrintedReadsBack(list, mask, n - 1);
      if n - 1 in mask && FindId(list, {n - 1}).Some? {
        AppendReadsBack(list, Printed(list, mask, n - 1), FindId(list, {n - 1}).value);
      }
    }
  }

  lemma NothingReadsBack(list: seq<Tuple>)
    ensures TokensMask(list, Split("")) == {} && AllKnown(list, Split(""))
  {
  }

  /** Printing a mask and reading it back loses exactly the bits without a name. */
  lemma RoundTrip(list: seq<Tuple>, mask: set<nat>)
    requires Readable(list) && forall i <- mask :: i < 64
    ensures TokensMask(list, Split(Printed(list, mask, 64))) == mask * Printable(list)
    ensures AllKnown(list, Split(Printed(list, mask, 64)))
  {
    PrintedReadsBack(list, mask, 64);
  }

  /** The printer and the parser, one after the other. */
  method PrintAndParse(list: seq<Tuple>, mask: set<nat>) returns (printed: bool, back: set<nat>, parsed: bool)
    requires Readable(list) && forall i <- mask :: i < 64
    ensures back == mask * Printable(list) && parsed
    ensures printed <==> back == mask
  {
    hide Readable, Printed, Split, TokensMask, AllKnown, Printable;
    var names: string;
    names, printed := ConvMaskToStr(list, mask);
    back, parsed := ConvStrToMask(list, names);
    RoundTrip(list, mask);
    if list == [] {
      PrintedNothing(list, mask, 64);
    }
  }

  /** Every name list means the same as its printed normal form, when each name stands for one bit. */
  lemma NormalForm(list: seq<Tuple>, names: string)
    requires Readable(list) && forall t <- list :: exists i :: 0 <= i < 64 && t.id == {i}
    ensures TokensMask(list, Split(names)) <= Printable(list)
    ensures TokensMask(list, Split(Printed(list, TokensMask(list, Split(names)), 64))) == TokensMask(list, Split(names))
  {
    hide Readable, Printed, Split, AllKnown;
    var mask := TokensMask(list, Split(names));
    forall b | b in mask ensures b in Printable(list) {
      var tk :| tk in Split(names) && b in TokenBits(list, tk);
      var t := FindName(list, tk).value;
      assert t.id == {b};
    }
    RoundTrip(list, mask);
  }
}
