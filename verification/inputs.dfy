/** The pure string handling behind the action's workflow inputs
    (`getInputArray` and `getInputWithDefault` in src/github.ts). */
module Inputs {
  import opened Sequences

  /** The code points ECMAScript's `String.prototype.trim` strips: the
      WhiteSpace and LineTerminator productions (tab, vertical tab, form
      feed, space, no-break space, byte-order mark, the Unicode space
      separators, line feed, carriage return, line and paragraph separators). */
  predicate IsWhitespace(c: char) {
    var n := c as int;
    || n == 0x09 || n == 0x0A || n == 0x0B || n == 0x0C || n == 0x0D
    || n == 0x20 || n == 0xA0 || n == 0x1680 || (0x2000 <= n <= 0x200A)
    || n == 0x2028 || n == 0x2029 || n == 0x202F || n == 0x205F
    || n == 0x3000 || n == 0xFEFF
  }

  /** Every character is whitespace (this includes the empty string). */
  predicate IsBlank(s: string) {
    forall k :: 0 <= k < |s| ==> IsWhitespace(s[k])
  }

  /** Neither end is whitespace. */
  predicate IsTrimmed(s: string) {
    |s| > 0 ==> !IsWhitespace(s[0]) && !IsWhitespace(s[|s| - 1])
  }

  /** The index of the first non-whitespace character at or after `i`
      (or `|s|` when there is none). */
  function SkipLeading(s: string, i: nat): (j: nat)
    requires i <= |s|
    ensures i <= j <= |s|
    ensures forall k :: i <= k < j ==> IsWhitespace(s[k])
    ensures j < |s| ==> !IsWhitespace(s[j])
    decreases |s| - i
  {
    if i < |s| && IsWhitespace(s[i]) then SkipLeading(s, i + 1) else i
  }

  /** The end of `s[lo..j]` once its trailing whitespace is dropped. */
  function SkipTrailing(s: string, lo: nat, j: nat): (e: nat)
    requires lo <= j <= |s|
    ensures lo <= e <= j
    ensures forall k :: e <= k < j ==> IsWhitespace(s[k])
    ensures e > lo ==> !IsWhitespace(s[e - 1])
  {
    if j > lo && IsWhitespace(s[j - 1]) then SkipTrailing(s, lo, j - 1) else j
  }

  /** `String.prototype.trim`: the infix of `s` left once the whitespace at
      both ends is removed; empty exactly when `s` is blank. */
  function Trim(s: string): (r: string)
    ensures var b := SkipLeading(s, 0);
      && b + |r| <= |s|
      && r == s[b..b + |r|]
      && (forall k :: 0 <= k < b ==> IsWhitespace(s[k]))
      && (forall k :: b + |r| <= k < |s| ==> IsWhitespace(s[k]))
    ensures IsTrimmed(r)
    ensures r == [] <==> IsBlank(s)
    ensures forall c :: c in r ==> c in s
  {
    var b := SkipLeading(s, 0);
    var e := SkipTrailing(s, b, |s|);
    assert e == b ==> IsBlank(s);
    s[b..e]
  }

  /** Trimming a trimmed string changes nothing, so `Trim` is idempotent. */
  lemma TrimOfTrimmed(s: string)
    requires IsTrimmed(s)
    ensures Trim(s) == s
  {
    assert SkipLeading(s, 0) == 0;
    assert s[0..|s|] == s;
  }

  lemma TrimIdempotent(s: string)
    ensures Trim(Trim(s)) == Trim(s)
  {
    TrimOfTrimmed(Trim(s));
  }

  /** Number of ',' characters in `s`. */
  function CountCommas(s: string): nat {
    if |s| == 0 then 0 else (if s[0] == ',' then 1 else 0) + CountCommas(s[1..])
  }

  /** `Array.prototype.join(',')`. */
  function Join(pieces: seq<string>): string {
    if |pieces| == 0 then ""
    else if |pieces| == 1 then pieces[0]
    else pieces[0] + "," + Join(pieces[1..])
  }

  /** `String.prototype.split(',')`: the maximal comma-free pieces between
      commas, one more than there are commas, which join back to `s`. */
  function Split(s: string): (pieces: seq<string>)
    ensures |pieces| == CountCommas(s) + 1
    ensures forall p :: p in pieces ==> ',' !in p
    ensures Join(pieces) == s
  {
    if |s| == 0 then [""]
    else
      var rest := Split(s[1..]);
      if s[0] == ',' then
        [""] + rest
      else
        var pieces := [[s[0]] + rest[0]] + rest[1..];
        assert rest[0] in rest;
        assert forall p :: p in pieces[1..] ==> p in rest;
        assert Join(pieces) == [s[0]] + Join(rest) by {
          if |rest| > 1 {
            assert pieces[1..] == rest[1..];
          }
        }
        assert s == [s[0]] + s[1..];
        pieces
  }

  /** Splitting the comma-join of comma-free pieces gives the pieces back. */
  lemma {:induction false} SplitJoin(pieces: seq<string>)
    requires |pieces| > 0
    requires forall p :: p in pieces ==> ',' !in p
    ensures Split(Join(pieces)) == pieces
  {
    assert pieces[0] in pieces;
    if |pieces| == 1 {
      SplitCommaFree(pieces[0]);
    } else {
      assert forall p :: p in pieces[1..] ==> p in pieces;
      SplitJoin(pieces[1..]);
      SplitAfterCommaFree(pieces[0], Join(pieces[1..]));
    }
  }

  /** A comma-free text is a single piece. */
  lemma {:induction false} SplitCommaFree(p: string)
    requires ',' !in p
    ensures Split(p) == [p]
  {
    if |p| > 0 {
      assert p[0] in p && p == [p[0]] + p[1..];
      SplitCommaFree(p[1..]);
    }
  }

  /** A comma-free prefix followed by a comma becomes the first piece. */
  lemma {:induction false} SplitAfterCommaFree(p: string, tail: string)
    requires ',' !in p
    ensures Split(p + "," + tail) == [p] + Split(tail)
  {
    var s := p + "," + tail;
    if |p| == 0 {
      assert s == [','] + tail && s[1..] == tail;
    } else {
      assert p[0] in p && p == [p[0]] + p[1..];
      assert s[0] == p[0] && s[1..] == p[1..] + "," + tail;
      SplitAfterCommaFree(p[1..], tail);
      var rest := Split(s[1..]);
      assert rest == [p[1..]] + Split(tail);
      assert Split(s) == [[p[0]] + rest[0]] + rest[1..];
      assert rest[1..] == Split(tail);
    }
  }

  predicate NonEmpty(s: string) {
    s != []
  }

  /** One CSV item as `getInputArray` yields it: non-empty, trimmed, comma-free. */
  predicate IsCsvItem(x: string) {
    x != [] && IsTrimmed(x) && ',' !in x
  }

  /** `getInputArray`: a blank input (empty or whitespace only) yields the
      default list; otherwise the comma-separated items, trimmed, with the
      empty ones dropped. Each such item is non-empty, trimmed and comma-free. */
  function GetInputArray(input: string, default: seq<string>): (items: seq<string>)
    ensures IsBlank(input) ==> items == default
    ensures !IsBlank(input) ==> forall x :: x in items ==> IsCsvItem(x)
  {
    if input == [] || Trim(input) == [] then
      default
    else
      TrimPieces(Split(input));
      Filter(NonEmpty, Map(Trim, Split(input)))
  }

  /** For a non-blank input the items keep the order of the trimmed
      comma-separated pieces they come from. */
  lemma GetInputArrayKeepsOrder(input: string, default: seq<string>)
    requires !IsBlank(input)
    ensures IsSubsequence(GetInputArray(input, default), Map(Trim, Split(input)))
  {
    FilterIsSubsequence(NonEmpty, Map(Trim, Split(input)));
  }

  /** For a non-blank input only the empty pieces are dropped: every
      non-empty trimmed piece occurs among the items exactly as often as it
      occurs among the trimmed pieces, the empty text never occurs, and there
      are at most one more items than there are commas. With
      `GetInputArrayKeepsOrder` this fixes the items completely. */
  lemma GetInputArrayKeepsNonEmpty(input: string, default: seq<string>)
    requires !IsBlank(input)
    ensures forall p :: p in Split(input) && Trim(p) != [] ==> Trim(p) in GetInputArray(input, default)
    ensures forall y :: y != [] ==>
              multiset(GetInputArray(input, default))[y] == multiset(Map(Trim, Split(input)))[y]
    ensures multiset(GetInputArray(input, default))[[]] == 0
    ensures |GetInputArray(input, default)| <= CountCommas(input) + 1
  {
    var trimmed := Map(Trim, Split(input));
    TrimPieces(Split(input));
    assert GetInputArray(input, default) == Filter(NonEmpty, trimmed);
    forall y | y != []
      ensures multiset(Filter(NonEmpty, trimmed))[y] == multiset(trimmed)[y]
    {
      FilterCounts(NonEmpty, trimmed, y);
    }
    FilterCounts(NonEmpty, trimmed, []);
  }

  /** `items` are what splitting `input` on commas and trimming the pieces
      leaves once the empty pieces are dropped: in their original order, every
      non-empty trimmed piece as often as it occurs, and no empty text. */
  ghost predicate ParsedFrom(items: seq<string>, input: string) {
    && IsSubsequence(items, Map(Trim, Split(input)))
    && (forall y :: y != [] ==> multiset(items)[y] == multiset(Map(Trim, Split(input)))[y])
    && multiset(items)[[]] == 0
  }

  /** Every non-blank input is parsed piece by piece as `ParsedFrom` says. */
  lemma GetInputArrayParses(input: string, default: seq<string>)
    ensures !IsBlank(input) ==> ParsedFrom(GetInputArray(input, default), input)
  {
    if !IsBlank(input) {
      GetInputArrayKeepsOrder(input, default);
      GetInputArrayKeepsNonEmpty(input, default);
    }
  }

  /** Trimming comma-free pieces one by one gives trimmed, comma-free items,
      and the trimmed form of every piece is among them. */
  lemma TrimPieces(pieces: seq<string>)
    requires forall p :: p in pieces ==> ',' !in p
    ensures forall x :: x in Map(Trim, pieces) ==> IsTrimmed(x) && ',' !in x
    ensures forall p :: p in pieces ==> Trim(p) in Map(Trim, pieces)
  {
    var trimmed := Map(Trim, pieces);
    forall x | x in trimmed ensures IsTrimmed(x) && ',' !in x {
      var i :| 0 <= i < |trimmed| && trimmed[i] == x;
      assert pieces[i] in pieces;
    }
    forall p | p in pieces ensures Trim(p) in trimmed {
      var i :| 0 <= i < |pieces| && pieces[i] == p;
      assert trimmed[i] == Trim(p);
    }
  }

  /** Round trip: a non-empty list of non-empty, trimmed, comma-free items,
      written as CSV, parses back to exactly that list. */
  lemma GetInputArrayOfJoin(items: seq<string>, default: seq<string>)
    requires |items| > 0
    requires forall x :: x in items ==> IsCsvItem(x)
    ensures GetInputArray(Join(items), default) == items
  {
    assert items[0] in items;
    JoinNotBlank(items);
    SplitJoin(items);
    MapTrimOfTrimmed(items);
    FilterKeepsAll(NonEmpty, items);
  }

  /** Any list of CSV items, written as CSV, parses back to itself; the
      empty list is written as the empty text and so reads as the default. */
  lemma GetInputArrayOfList(items: seq<string>, default: seq<string>)
    requires forall x :: x in items ==> IsCsvItem(x)
    ensures GetInputArray(Join(items), default) == if items == [] then default else items
  {
    if items != [] {
      GetInputArrayOfJoin(items, default);
    }
  }

  /** The single-item CSV "x" reads as ["x"]. */
  lemma SingleItemInput(x: string, default: seq<string>)
    requires IsCsvItem(x)
    ensures GetInputArray(x, default) == [x]
  {
    GetInputArrayOfJoin([x], default);
  }

  /** A join whose first item starts with a non-whitespace character is not blank. */
  lemma JoinNotBlank(items: seq<string>)
    requires |items| > 0 && |items[0]| > 0 && !IsWhitespace(items[0][0])
    ensures !IsBlank(Join(items))
  {
    var s := Join(items);
    assert s[0] == items[0][0] by {
      if |items| > 1 {
        assert s == items[0] + ("," + Join(items[1..]));
      }
    }
  }

  /** Trimming already trimmed, non-empty items changes none of them. */
  lemma MapTrimOfTrimmed(items: seq<string>)
    requires forall x :: x in items ==> x != [] && IsTrimmed(x)
    ensures Map(Trim, items) == items
    ensures forall i :: 0 <= i < |items| ==> NonEmpty(items[i])
  {
    var trimmed := Map(Trim, items);
    forall i | 0 <= i < |items| ensures trimmed[i] == items[i] && NonEmpty(items[i]) {
      assert items[i] in items;
      TrimOfTrimmed(items[i]);
    }
  }

  /** `getInputWithDefault`: the input unless it is the empty string. */
  function GetInputWithDefault(input: string, default: string): (r: string)
    ensures input != [] ==> r == input
    ensures input == [] ==> r == default
  {
    if input != [] then input else default
  }
}
