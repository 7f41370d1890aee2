/**
 * pkg/flags/flags.go: the `key={k:v,...}` mini-language of the `--tag` and
 * `--field` options, its parser and serialiser, and the Tag and Field
 * option values built on top of it.
 */
module Flags {
  import opened Wrappers
  import opened GoStrings

  /** `flagMap`: a key and its options. */
  datatype FlagMap = FlagMap(k: string, v: map<string, string>)

  datatype FlagError = ParseError(arg: string) | InvalidFieldType(arg: string)

  // ---------------------------------------------------------------------------
  // The regular expression ^(\w*)(?:={(.*)})?$
  // ---------------------------------------------------------------------------

  /**
   * The language of the regular expression and its two capture groups:
   * `arg` is a run of word characters `w`, optionally followed by `={m}`
   * where `m` has no newline (`.` does not match `\n`); group 2 is "" when
   * the optional part is absent.
   */
  predicate RegexCaptures(arg: string, w: string, m: string) {
    AllWord(w) && '\n' !in m && ((arg == w && m == []) || arg == w + "={" + m + "}")
  }

  /**
   * `regexFlagMap.FindStringSubmatch`, hand-coded: the longest word prefix,
   * then either nothing or `={`, a newline-free middle and `}`.
   */
  function MatchFlagArg(arg: string): Option<(string, string)> {
    var n := WordPrefixLen(arg);
    var rest := arg[n..];
    if rest == [] then Some((arg, []))
    else if |rest| >= 3 && rest[..2] == "={" && rest[|rest| - 1] == '}' && '\n' !in rest[2..|rest| - 1] then
      Some((arg[..n], rest[2..|rest| - 1]))
    else None
  }

  /** The recognizer returns exactly the captures of the regular expression, and fails iff there are none. */
  lemma MatchFlagArgIsRegex(arg: string, w: string, m: string)
    ensures MatchFlagArg(arg) == Some((w, m)) <==> RegexCaptures(arg, w, m)
  {
    if MatchFlagArg(arg) == Some((w, m)) {
      MatchFlagArgSound(arg, w, m);
    }
    if RegexCaptures(arg, w, m) {
      MatchFlagArgComplete(arg, w, m);
    }
  }

  lemma MatchFlagArgSound(arg: string, w: string, m: string)
    requires MatchFlagArg(arg) == Some((w, m))
    ensures RegexCaptures(arg, w, m)
  {
    var n := WordPrefixLen(arg);
    var rest := arg[n..];
    if rest == [] {
      assert arg[..n] == arg;
    } else {
      assert w == arg[..n] && m == rest[2..|rest| - 1];
      BracedParts(arg, n, rest);
    }
  }

  /** A word prefix followed by a braced part splits into the word, `={`, the middle and `}`. */
  lemma BracedParts(arg: string, n: nat, rest: string)
    requires n <= |arg| && rest == arg[n..]
    requires |rest| >= 3 && rest[..2] == "={" && rest[|rest| - 1] == '}'
    ensures arg == arg[..n] + "={" + rest[2..|rest| - 1] + "}"
  {
    var mid := rest[2..|rest| - 1];
    assert rest == rest[..2] + mid + [rest[|rest| - 1]];
    assert arg == arg[..n] + rest;
  }

  lemma MatchFlagArgComplete(arg: string, w: string, m: string)
    requires RegexCaptures(arg, w, m)
    ensures MatchFlagArg(arg) == Some((w, m))
  {
    if arg == w && m == [] {
      WordPrefixOf(w, []);
      assert w + [] == w;
    } else {
      var t := "={" + m + "}";
      assert arg == w + t;
      WordPrefixOf(w, t);
      var n := WordPrefixLen(arg);
      assert n == |w|;
      assert arg[..n] == w;
      var rest := arg[n..];
      assert rest == t;
      assert |rest| >= 3 && rest[..2] == "={" && rest[|rest| - 1] == '}';
      assert rest[2..|rest| - 1] == m;
    }
  }

  // ---------------------------------------------------------------------------
  // unmarshalFlag
  // ---------------------------------------------------------------------------

  /** The part of an option item before its `:`, and the part after it. */
  function ItemKey(item: string): string {
    Split(item, ':')[0]
  }

  function ItemValue(item: string): string {
    var s := Split(item, ':');
    if |s| >= 2 then s[1] else []
  }

  /**
   * The option items read left to right into a map: an item without exactly
   * one `:` fails the whole parse, and a later item overwrites an earlier
   * one with the same key.
   */
  function ParseItems(items: seq<string>): Option<map<string, string>> {
    if items == [] then Some(map[])
    else
      match ParseItems(items[..|items| - 1])
      case None => None
      case Some(acc) =>
        var s := Split(items[|items| - 1], ':');
        if |s| != 2 then None else Some(acc[s[0] := s[1]])
  }

  /** What `unmarshalFlag(arg)` returns. */
  function ParseFlagMap(arg: string): Result<FlagMap, FlagError> {
    match MatchFlagArg(arg)
    case None => Err(ParseError(arg))
    case Some((w, values)) =>
      if values == [] then Ok(FlagMap(w, map[]))
      else
        match ParseItems(Split(values, ','))
        case None => Err(ParseError(arg))
        case Some(v) => Ok(FlagMap(w, v))
  }

  lemma {:induction false} ParseItemsFailureExtends(items: seq<string>, i: nat)
    requires i <= |items|
    requires ParseItems(items[..i]).None?
    ensures ParseItems(items).None?
    decreases |items| - i
  {
    if i < |items| {
      assert items[..i + 1][..i] == items[..i];
      ParseItemsFailureExtends(items, i + 1);
    } else {
      assert items[..i] == items;
    }
  }

  /** `unmarshalFlag`: match, then fill the map item by item. */
  method UnmarshalFlagMap(arg: string) returns (r: Result<FlagMap, FlagError>)
    ensures r == ParseFlagMap(arg)
  {
    var matchs := MatchFlagArg(arg);
    if matchs.None? {
      return Err(ParseError(arg));
    }
    var key, values := matchs.value.0, matchs.value.1;
    var v: map<string, string> := map[];
    if values != [] {
      var items := Split(values, ',');
      var i := 0;
      while i < |items|
        invariant 0 <= i <= |items|
        invariant ParseItems(items[..i]) == Some(v)
      {
        var s := Split(items[i], ':');
        assert items[..i + 1][..i] == items[..i];
        if |s| != 2 {
          ParseItemsFailureExtends(items, i + 1);
          return Err(ParseError(arg));
        }
        v := v[s[0] := s[1]];
        i := i + 1;
      }
      assert items[..i] == items;
    }
    return Ok(FlagMap(key, v));
  }

  /** The items parse iff every one of them has exactly one `:`. */
  lemma {:induction false} ParseItemsSucceeds(items: seq<string>)
    ensures ParseItems(items).Some? <==> forall i :: 0 <= i < |items| ==> CountChar(items[i], ':') == 1
  {
    if items != [] {
      var init := items[..|items| - 1];
      ParseItemsSucceeds(init);
      assert forall i :: 0 <= i < |init| ==> init[i] == items[i];
    }
  }

  /** The parsed keys are exactly the items' keys. */
  lemma {:induction false} ParseItemsKeys(items: seq<string>)
    requires ParseItems(items).Some?
    ensures forall k :: k in ParseItems(items).value <==> exists i :: 0 <= i < |items| && ItemKey(items[i]) == k
  {
    if items != [] {
      var init := items[..|items| - 1];
      ParseItemsKeys(init);
      forall k | k in ParseItems(items).value
        ensures exists i :: 0 <= i < |items| && ItemKey(items[i]) == k
      {
        if k in ParseItems(init).value {
          var i :| 0 <= i < |init| && ItemKey(init[i]) == k;
          assert items[i] == init[i];
        } else {
          assert ItemKey(items[|items| - 1]) == k;
        }
      }
      forall k | exists i :: 0 <= i < |items| && ItemKey(items[i]) == k
        ensures k in ParseItems(items).value
      {
        var i :| 0 <= i < |items| && ItemKey(items[i]) == k;
        if i < |items| - 1 {
          assert init[i] == items[i];
        }
      }
    }
  }

  /** A repeated key keeps the value of its last item. */
  lemma {:induction false} ParseItemsLastWins(items: seq<string>, i: nat)
    requires ParseItems(items).Some?
    requires i < |items|
    requires forall j :: i < j < |items| ==> ItemKey(items[j]) != ItemKey(items[i])
    ensures ItemKey(items[i]) in ParseItems(items).value
    ensures ParseItems(items).value[ItemKey(items[i])] == ItemValue(items[i])
  {
    var init := items[..|items| - 1];
    if i < |items| - 1 {
      ParseItemsLastWins(init, i);
      assert init[i] == items[i];
      assert forall j :: i < j < |init| ==> init[j] == items[j];
    }
  }

  /**
   * `unmarshalFlag` fails iff the regular expression does not match or some
   * item inside the braces lacks exactly one `:`. On success the key is the
   * leading word-character run, and the map is empty without braces or
   * with empty braces.
   */
  lemma ParseFlagMapOutcome(arg: string)
    ensures ParseFlagMap(arg).Err? <==>
      MatchFlagArg(arg).None? ||
      (MatchFlagArg(arg).value.1 != [] &&
       exists item :: item in Split(MatchFlagArg(arg).value.1, ',') && CountChar(item, ':') != 1)
    ensures ParseFlagMap(arg).Ok? ==> ParseFlagMap(arg).value.k == arg[..WordPrefixLen(arg)]
    ensures ParseFlagMap(arg).Ok? && MatchFlagArg(arg).value.1 == [] ==> ParseFlagMap(arg).value.v == map[]
  {
    if MatchFlagArg(arg).Some? {
      var values := MatchFlagArg(arg).value.1;
      if values != [] {
        ParseItemsSucceeds(Split(values, ','));
      }
      if arg[WordPrefixLen(arg)..] == [] {
        assert arg[..WordPrefixLen(arg)] == arg;
      }
    }
  }

  /** `unmarshalFlag("foo=%")` fails: `%` can follow the key only inside braces. */
  lemma ParseFlagMapRejectsPercent()
    ensures ParseFlagMap("foo=%").Err?
  {
    WordPrefixOf("foo", "=%");
    assert "foo" + "=%" == "foo=%";
  }

  // ---------------------------------------------------------------------------
  // marshalFlag
  // ---------------------------------------------------------------------------

  predicate StrictlySorted(ks: seq<string>) {
    forall i, j :: 0 <= i < j < |ks| ==> StrLess(ks[i], ks[j])
  }

  lemma {:induction false} InsertSorted(ks: seq<string>, k: string)
    requires StrictlySorted(ks) && k !in ks
    ensures StrictlySorted(Insert(ks, k))
    ensures forall x :: x in Insert(ks, k) <==> x in ks || x == k
  {
    if ks != [] {
      if StrLess(k, ks[0]) {
        forall j | 0 < j < |ks| ensures StrLess(k, ks[j]) {
          StrLessTransitive(k, ks[0], ks[j]);
        }
      } else {
        assert ks == [ks[0]] + ks[1..];
        StrLessTotal(k, ks[0]);
        InsertSorted(ks[1..], k);
        var r := Insert(ks, k);
        assert r == [ks[0]] + Insert(ks[1..], k);
        forall i, j | 0 <= i < j < |r| ensures StrLess(r[i], r[j]) {
          if i == 0 {
            assert r[j] in Insert(ks[1..], k);
          }
        }
      }
    }
  }

  /** Sorted without duplicates is strictly sorted. */
  lemma SortedStrictly(s: seq<string>)
    requires Sorted(s) && NoDuplicates(s)
    ensures StrictlySorted(s)
  {
    forall i, j | 0 <= i < j < |s| ensures StrLess(s[i], s[j]) {
      StrLessTotal(s[i], s[j]);
    }
  }

  /** Two strictly sorted sequences with the same elements are equal. */
  lemma {:induction false} SortedUnique(a: seq<string>, b: seq<string>)
    requires StrictlySorted(a) && StrictlySorted(b)
    requires forall x :: x in a <==> x in b
    ensures a == b
  {
    if a == [] || b == [] {
      NoMembersEmpty(a);
      NoMembersEmpty(b);
    } else {
      assert a[0] in b && b[0] in a;
      if a[0] != b[0] {
        var i :| 0 <= i < |a| && a[i] == b[0];
        var j :| 0 <= j < |b| && b[j] == a[0];
        assert StrLess(a[0], a[i]) && StrLess(b[0], b[j]);
        StrLessAsymmetric(a[0], b[0]);
      }
      forall x ensures x in a[1..] <==> x in b[1..] {
        if x in a[1..] {
          var i :| 1 <= i < |a| && a[i] == x;
          assert StrLess(a[0], x);
          StrLessIrreflexive(x);
          assert x in b && x != b[0];
        }
        if x in b[1..] {
          var j :| 1 <= j < |b| && b[j] == x;
          assert StrLess(b[0], x);
          StrLessIrreflexive(x);
          assert x in a && x != a[0];
        }
      }
      SortedUnique(a[1..], b[1..]);
      assert a == [a[0]] + a[1..] && b == [b[0]] + b[1..];
    }
  }

  lemma NoMembersEmpty(s: seq<string>)
    requires forall x :: x !in s
    ensures s == []
  {
    forall x ensures x !in multiset(s) {
      assert x !in s;
    }
    assert multiset(s) == multiset{};
    assert |s| == |multiset(s)|;
  }

  lemma {:induction false} SortedExists(ks: set<string>)
    ensures exists r :: StrictlySorted(r) && forall x :: x in r <==> x in ks
    decreases |ks|
  {
    if ks == {} {
      assert StrictlySorted([]) && forall x :: x in [] <==> x in ks;
    } else {
      var k :| k in ks;
      SortedExists(ks - {k});
      var r :| StrictlySorted(r) && forall x :: x in r <==> x in ks - {k};
      InsertSorted(r, k);
      assert StrictlySorted(Insert(r, k)) && forall x :: x in Insert(r, k) <==> x in ks;
    }
  }

  /** The keys in ascending byte order, each once (what `sort.Strings` leaves in `keys`). */
  ghost function SortedKeys(ks: set<string>): (r: seq<string>)
    ensures StrictlySorted(r)
    ensures forall x :: x in r <==> x in ks
  {
    SortedExists(ks);
    var r :| StrictlySorted(r) && forall x :: x in r <==> x in ks; r
  }

  /** `argList`: one `k:v` item per key, in the order of `ks`. */
  function RenderItems(ks: seq<string>, v: map<string, string>): seq<string>
    requires forall i :: 0 <= i < |ks| ==> ks[i] in v
  {
    if ks == [] then []
    else RenderItems(ks[..|ks| - 1], v) + [ks[|ks| - 1] + ":" + v[ks[|ks| - 1]]]
  }

  /** The text between the braces: the items joined by commas. */
  function OptionsText(ks: seq<string>, v: map<string, string>): string
    requires forall i :: 0 <= i < |ks| ==> ks[i] in v
  {
    Join(RenderItems(ks, v), ",")
  }

  /** What `marshalFlag` returns: the key, then `={...}` with the items in ascending key order unless there are none. */
  ghost function RenderFlagMap(m: FlagMap): string {
    var ks := SortedKeys(m.v.Keys);
    if ks == [] then m.k else m.k + "={" + OptionsText(ks, m.v) + "}"
  }

  /** The keys of `v` in the (unspecified) order a range over the map yields them. */
  method MapKeys(v: map<string, string>) returns (keys: seq<string>)
    ensures NoDuplicates(keys)
    ensures forall x :: x in keys <==> x in v
  {
    keys := [];
    var rest := v.Keys;
    while rest != {}
      invariant rest <= v.Keys
      invariant forall x :: x in keys <==> x in v && x !in rest
      invariant NoDuplicates(keys)
      decreases |rest|
    {
      var k :| k in rest;
      keys := keys + [k];
      rest := rest - {k};
    }
  }

  /** Sorting the keys of a map, listed once each, gives `SortedKeys`. */
  lemma SortedPermutationOfKeys(unsorted: seq<string>, keys: seq<string>, ks: set<string>)
    requires NoDuplicates(unsorted) && forall x :: x in unsorted <==> x in ks
    requires Sorted(keys) && multiset(keys) == multiset(unsorted)
    ensures keys == SortedKeys(ks)
  {
    PermutationNoDuplicates(unsorted, keys);
    assert forall x :: x in keys <==> x in multiset(unsorted);
    SortedStrictly(keys);
    SortedUnique(keys, SortedKeys(ks));
  }

  /** `flagMap.marshalFlag`: collect the keys in map order, sort them, render. */
  method MarshalFlagMap(m: FlagMap) returns (s: string)
    ensures s == RenderFlagMap(m)
  {
    var unsorted := MapKeys(m.v);
    var keys := SortStrings(unsorted);
    SortedPermutationOfKeys(unsorted, keys, m.v.Keys);
    var argList: seq<string> := [];
    var i := 0;
    while i < |keys|
      invariant 0 <= i <= |keys|
      invariant argList == RenderItems(keys[..i], m.v)
    {
      assert keys[..i + 1][..i] == keys[..i];
      argList := argList + [keys[i] + ":" + m.v[keys[i]]];
      i := i + 1;
    }
    assert keys[..i] == keys;
    var args: string := [];
    if |argList| > 0 {
      args := "={" + Join(argList, ",") + "}";
      assert m.k + args == m.k + "={" + OptionsText(keys, m.v) + "}";
    } else {
      assert m.k + args == m.k;
    }
    s := m.k + args;
  }

  lemma {:induction false} RenderItemsAt(ks: seq<string>, v: map<string, string>)
    requires forall i :: 0 <= i < |ks| ==> ks[i] in v
    ensures |RenderItems(ks, v)| == |ks|
    ensures forall i :: 0 <= i < |ks| ==> RenderItems(ks, v)[i] == ks[i] + ":" + v[ks[i]]
  {
    if ks != [] {
      RenderItemsAt(ks[..|ks| - 1], v);
    }
  }

  /** A string free of the three characters the syntax gives a meaning to inside braces. */
  predicate Clean(s: string) {
    ',' !in s && ':' !in s && '\n' !in s
  }

  lemma {:induction false} ParseRenderedItems(ks: seq<string>, v: map<string, string>)
    requires forall i :: 0 <= i < |ks| ==> ks[i] in v && Clean(ks[i]) && Clean(v[ks[i]])
    ensures ParseItems(RenderItems(ks, v)) == Some(map x | x in ks :: Lookup(v, x))
  {
    if ks != [] {
      var init := ks[..|ks| - 1];
      var k := ks[|ks| - 1];
      ParseRenderedItems(init, v);
      SplitItem(k, v[k]);
      ParseItemsSnoc(RenderItems(init, v), k + ":" + v[k], map x | x in init :: Lookup(v, x));
      assert ks == init + [k];
      LookupMapSnoc(init, k, v);
    } else {
      assert (map x | x in ks :: Lookup(v, x)) == map[];
    }
  }

  lemma LookupMapSnoc(init: seq<string>, k: string, v: map<string, string>)
    requires k in v
    ensures (map x | x in init :: Lookup(v, x))[k := v[k]] == map x | x in init + [k] :: Lookup(v, x)
  {
  }

  /** A clean key and value joined by `:` split back into the two. */
  lemma SplitItem(k: string, val: string)
    requires Clean(k) && Clean(val)
    ensures Split(k + ":" + val, ':') == [k, val]
  {
    assert Join([k, val], ":") == k + ":" + val;
    SplitJoin([k, val], ':');
  }

  /** One more well-formed item stores its value under its key. */
  lemma ParseItemsSnoc(items: seq<string>, item: string, acc: map<string, string>)
    requires ParseItems(items) == Some(acc)
    requires |Split(item, ':')| == 2
    ensures ParseItems(items + [item]) == Some(acc[Split(item, ':')[0] := Split(item, ':')[1]])
  {
    assert (items + [item])[..|items|] == items;
  }

  /** Option keys and values that are present in `v` and clean. */
  predicate CleanOptions(ks: seq<string>, v: map<string, string>) {
    forall i :: 0 <= i < |ks| ==> ks[i] in v && Clean(ks[i]) && Clean(v[ks[i]])
  }

  /** The rendered options are non-empty and free of newlines. */
  lemma OptionsTextShape(ks: seq<string>, v: map<string, string>)
    requires ks != [] && CleanOptions(ks, v)
    ensures OptionsText(ks, v) != [] && '\n' !in OptionsText(ks, v)
  {
    var items := RenderItems(ks, v);
    RenderItemsAt(ks, v);
    forall i | 0 <= i < |items| ensures '\n' !in items[i] {
      assert items[i] == ks[i] + ":" + v[ks[i]];
    }
    JoinAvoids(items, ",", '\n');
    JoinStartsWithFirst(items, ",");
    assert items[0] == ks[0] + ":" + v[ks[0]];
  }

  /** The rendered options split and parse back to the options of `ks`. */
  lemma OptionsTextParses(ks: seq<string>, v: map<string, string>)
    requires ks != [] && CleanOptions(ks, v)
    ensures ParseItems(Split(OptionsText(ks, v), ',')) == Some(map x | x in ks :: Lookup(v, x))
  {
    var items := RenderItems(ks, v);
    RenderItemsAt(ks, v);
    forall i | 0 <= i < |items| ensures ',' !in items[i] {
      assert items[i] == ks[i] + ":" + v[ks[i]];
    }
    SplitJoin(items, ',');
    ParseRenderedItems(ks, v);
  }

  /**
   * `unmarshalFlag(marshalFlag(m)) == m` when the key is made of word
   * characters and no option key or value holds `,`, `:` or a newline.
   */
  lemma FlagRoundTrip(m: FlagMap)
    requires AllWord(m.k)
    requires forall x :: x in m.v ==> Clean(x) && Clean(m.v[x])
    ensures ParseFlagMap(RenderFlagMap(m)) == Ok(m)
  {
    var ks := SortedKeys(m.v.Keys);
    if ks == [] {
      assert m.v == map[];
      MatchFlagArgComplete(m.k, m.k, []);
    } else {
      var inner := OptionsText(ks, m.v);
      assert CleanOptions(ks, m.v);
      OptionsTextShape(ks, m.v);
      OptionsTextParses(ks, m.v);
      MatchFlagArgComplete(m.k + "={" + inner + "}", m.k, inner);
      assert (map x | x in ks :: Lookup(m.v, x)) == m.v;
    }
  }

  // ---------------------------------------------------------------------------
  // Tag
  // ---------------------------------------------------------------------------

  /** The value of a `Tag`: the InfluxDB tag name and the CSV row it is read from. */
  datatype TagConf = TagConf(tag: string, row: string)

  /** A Go map read: the zero value "" for a missing key. */
  function Lookup(v: map<string, string>, key: string): string {
    if key in v then v[key] else []
  }

  /** What `Tag.UnmarshalFlag(arg)` stores: the key as tag, the `row` option (or else the key) as row. */
  function ParseTag(arg: string): Result<TagConf, FlagError> {
    match ParseFlagMap(arg)
    case Err(e) => Err(e)
    case Ok(fm) =>
      var row := Lookup(fm.v, "row");
      Ok(TagConf(fm.k, if row == [] then fm.k else row))
  }

  /** The `flagMap` that `Tag.MarshalFlag` builds: `row` only when set. */
  function TagFlagMap(t: TagConf): FlagMap {
    FlagMap(t.tag, if t.row != [] then map["row" := t.row] else map[])
  }

  ghost function RenderTag(t: TagConf): string {
    RenderFlagMap(TagFlagMap(t))
  }

  /** `Tag.UnmarshalFlag(Tag.MarshalFlag(t))` restores a tag whose row is set and clean and whose name is word characters. */
  lemma TagRoundTrip(t: TagConf)
    requires AllWord(t.tag) && t.row != [] && Clean(t.row)
    ensures ParseTag(RenderTag(t)) == Ok(t)
  {
    assert Clean("row");
    FlagRoundTrip(TagFlagMap(t));
  }

  /** `"foo"` becomes the tag `foo` read from row `foo`. */
  lemma TagFromBareKey()
    ensures ParseTag("foo") == Ok(TagConf("foo", "foo"))
  {
    WordPrefixOf("foo", []);
    assert "foo" + [] == "foo";
  }

  /** An all-empty tag marshals to "". */
  lemma EmptyTagRendersEmpty()
    ensures RenderTag(TagConf([], [])) == []
  {
    SortedUnique(SortedKeys({}), []);
  }

  class Tag {
    var tag: string
    var row: string

    /** The zero value `&Tag{}`. */
    constructor ()
      ensures tag == [] && row == []
    {
      tag, row := [], [];
    }

    function Value(): TagConf
      reads this
    {
      TagConf(tag, row)
    }

    /** `Tag.UnmarshalFlag`: on an error the receiver is left as it was. */
    method UnmarshalFlag(arg: string) returns (err: Option<FlagError>)
      modifies this
      ensures err.None? <==> ParseTag(arg).Ok?
      ensures ParseTag(arg).Ok? ==> Value() == ParseTag(arg).value
      ensures ParseTag(arg).Err? ==> err == Some(ParseTag(arg).error) && Value() == old(Value())
    {
      var fm := UnmarshalFlagMap(arg);
      if fm.Err? {
        return Some(fm.error);
      }
      tag := fm.value.k;
      row := Lookup(fm.value.v, "row");
      if row == [] {
        row := tag;
      }
      return None;
    }

    /** `Tag.MarshalFlag` */
    method MarshalFlag() returns (s: string)
      ensures s == RenderTag(Value())
    {
      var m := FlagMap(tag, map[]);
      if row != [] {
        m := m.(v := m.v["row" := row]);
      }
      s := MarshalFlagMap(m);
    }
  }

  // ---------------------------------------------------------------------------
  // FieldType and Field
  // ---------------------------------------------------------------------------

  const FieldTypeFloat: string := "float"
  const FieldTypeInteger: string := "int"
  const FieldTypeString: string := "string"
  const FieldTypeBool: string := "bool"

  /** `FieldType.isValid` */
  predicate IsValidFieldType(t: string) {
    t == FieldTypeFloat || t == FieldTypeInteger || t == FieldTypeString || t == FieldTypeBool
  }

  /** The value of a `Field`: the InfluxDB field name, the CSV row and the value type. */
  datatype FieldConf = FieldConf(field: string, row: string, fieldType: string)

  /** What `Field.UnmarshalFlag(arg)` stores, or the error it returns. */
  function ParseField(arg: string): Result<FieldConf, FlagError> {
    match ParseFlagMap(arg)
    case Err(e) => Err(e)
    case Ok(fm) =>
      var row := Lookup(fm.v, "row");
      var fType := Lookup(fm.v, "type");
      if !IsValidFieldType(fType) then Err(InvalidFieldType(arg))
      else Ok(FieldConf(fm.k, if row == [] then fm.k else row, fType))
  }

  /** The `flagMap` that `Field.MarshalFlag` builds: `type` and `row` only when set. */
  function FieldFlagMap(f: FieldConf): FlagMap {
    FlagMap(f.field,
      (if f.fieldType != [] then map["type" := f.fieldType] else map[]) +
      (if f.row != [] then map["row" := f.row] else map[]))
  }

  ghost function RenderField(f: FieldConf): string {
    RenderFlagMap(FieldFlagMap(f))
  }

  /** A field parses only with one of the four known types; then name and row are set as for a tag. */
  lemma ParseFieldOutcome(arg: string)
    ensures ParseField(arg).Ok? <==>
      ParseFlagMap(arg).Ok? && IsValidFieldType(Lookup(ParseFlagMap(arg).value.v, "type"))
    ensures ParseField(arg).Ok? ==>
      && ParseField(arg).value.field == ParseTag(arg).value.tag
      && ParseField(arg).value.row == ParseTag(arg).value.row
      && ParseField(arg).value.fieldType == Lookup(ParseFlagMap(arg).value.v, "type")
      && IsValidFieldType(ParseField(arg).value.fieldType)
  {
  }

  /** `Field.UnmarshalFlag(Field.MarshalFlag(f))` restores a field with a valid type and a set, clean row. */
  lemma FieldRoundTrip(f: FieldConf)
    requires AllWord(f.field) && f.row != [] && Clean(f.row) && IsValidFieldType(f.fieldType)
    ensures ParseField(RenderField(f)) == Ok(f)
  {
    assert Clean("row") && Clean("type") && Clean(f.fieldType);
    FlagRoundTrip(FieldFlagMap(f));
  }

  /** A bare key has no type: the field is rejected. */
  lemma FieldRejectsMissingType()
    ensures ParseField("foo") == Err(InvalidFieldType("foo"))
  {
    WordPrefixOf("foo", []);
    assert "foo" + [] == "foo";
  }

  /** `bar` is not one of the four types: `foo={type:bar}` is rejected. */
  lemma FieldRejectsUnknownType()
    ensures ParseField("foo" + "={" + "type" + ":" + "bar" + "}") == Err(InvalidFieldType("foo" + "={" + "type" + ":" + "bar" + "}"))
  {
    ParseOneOption("foo", "type", "bar");
  }

  /** `foo={type:int}` becomes the int field `foo` read from row `foo`. */
  lemma FieldFromTypedKey()
    ensures ParseField("foo" + "={" + "type" + ":" + "int" + "}") == Ok(FieldConf("foo", "foo", "int"))
  {
    ParseOneOption("foo", "type", "int");
  }

  /** A single `k:val` item parses to the one-entry map. */
  lemma ParseSingleItem(k: string, val: string)
    requires Clean(k) && Clean(val)
    ensures ParseItems([k + ":" + val]) == Some(map[k := val])
  {
    SplitItem(k, val);
    ParseItemsSnoc([], k + ":" + val, map[]);
  }

  /** `w={k:val}` parses to the key `w` with the single option `k` = `val`. */
  lemma ParseOneOption(w: string, k: string, val: string)
    requires AllWord(w) && Clean(k) && Clean(val)
    ensures ParseFlagMap(w + "={" + k + ":" + val + "}") == Ok(FlagMap(w, map[k := val]))
  {
    var item := k + ":" + val;
    var arg := w + "={" + k + ":" + val + "}";
    assert arg == w + "={" + item + "}";
    assert '\n' !in item;
    MatchFlagArgIsRegex(arg, w, item);
    assert Join([item], ",") == item;
    assert ',' !in item;
    SplitJoin([item], ',');
    ParseSingleItem(k, val);
  }

  /** An all-empty field marshals to "". */
  lemma EmptyFieldRendersEmpty()
    ensures RenderField(FieldConf([], [], [])) == []
  {
    assert FieldFlagMap(FieldConf([], [], [])).v == map[];
    SortedUnique(SortedKeys({}), []);
  }

  class Field {
    var field: string
    var row: string
    var fieldType: string

    /** The zero value `&Field{}`. */
    constructor ()
      ensures field == [] && row == [] && fieldType == []
    {
      field, row, fieldType := [], [], [];
    }

    function Value(): FieldConf
      reads this
    {
      FieldConf(field, row, fieldType)
    }

    /** `Field.UnmarshalFlag`: all three fields are set together, and only on success. */
    method UnmarshalFlag(arg: string) returns (err: Option<FlagError>)
      modifies this
      ensures err.None? <==> ParseField(arg).Ok?
      ensures ParseField(arg).Ok? ==> Value() == ParseField(arg).value
      ensures ParseField(arg).Err? ==> err == Some(ParseField(arg).error) && Value() == old(Value())
    {
      var fm := UnmarshalFlagMap(arg);
      if fm.Err? {
        return Some(fm.error);
      }
      var f := fm.value.k;
      var r := Lookup(fm.value.v, "row");
      if r == [] {
        r := f;
      }
      var fType := Lookup(fm.value.v, "type");
      if !IsValidFieldType(fType) {
        return Some(InvalidFieldType(arg));
      }
      field, row, fieldType := f, r, fType;
      return None;
    }

    /** `Field.MarshalFlag` */
    method MarshalFlag() returns (s: string)
      ensures s == RenderField(Value())
    {
      var m := FlagMap(field, map[]);
      if fieldType != [] {
        m := m.(v := m.v["type" := fieldType]);
      }
      if row != [] {
        m := m.(v := m.v["row" := row]);
      }
      assert m == FieldFlagMap(Value());
      s := MarshalFlagMap(m);
    }
  }
}
