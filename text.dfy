/** The JavaScript string primitives the feed script relies on: `toLowerCase`, `trim`,
    the `\s` character class and `String.prototype.replace` with a global regular
    expression that matches single characters. */
module Text {

  /** The characters JavaScript's `trim` removes and its `\s` class matches: the
      WhiteSpace code points (tab, vertical tab, form feed, no-break space, byte order
      mark and every space separator) and the four LineTerminator code points. */
  predicate IsWhitespace(c: char) {
    || ('\t' <= c <= '\r')  // tab, line feed, vertical tab, form feed, carriage return
    || c == ' ' || c == '\U{00A0}' || c == '\U{1680}'
    || ('\U{2000}' <= c <= '\U{200A}')
    || c == '\U{2028}' || c == '\U{2029}' || c == '\U{202F}' || c == '\U{205F}'
    || c == '\U{3000}' || c == '\U{FEFF}'
  }

  /** Upper-case letters whose lower-case form is one code point 32 further on: the
      ASCII capitals and the Latin-1 capitals (which include Å, Ä and Ö). */
  predicate IsUpper(c: char) {
    ('A' <= c <= 'Z') || ('\U{00C0}' <= c <= '\U{00DE}' && c != '\U{00D7}')
  }

  function LowerChar(c: char): (r: char)
    ensures !IsUpper(r)
    ensures !IsUpper(c) ==> r == c
  {
    if IsUpper(c) then (c as int + 32) as char else c
  }

  /** `toLowerCase`, restricted to the characters `IsUpper` names. */
  function ToLowerCase(s: string): (r: string)
    ensures |r| == |s|
    ensures forall i :: 0 <= i < |s| ==> r[i] == LowerChar(s[i])
    ensures forall c :: c in r ==> !IsUpper(c)
  {
    seq(|s|, i requires 0 <= i < |s| => LowerChar(s[i]))
  }

  lemma ToLowerCaseOfLower(s: string)
    requires forall c :: c in s ==> !IsUpper(c)
    ensures ToLowerCase(s) == s
  {
  }

  /** The leading-whitespace half of `trim`. */
  function TrimStart(s: string): (r: string)
    ensures |r| <= |s| && r == s[|s| - |r|..]
    ensures forall i :: 0 <= i < |s| - |r| ==> IsWhitespace(s[i])
    ensures r == [] || !IsWhitespace(r[0])
  {
    if s != [] && IsWhitespace(s[0]) then TrimStart(s[1..]) else s
  }

  /** The trailing-whitespace half of `trim`. */
  function TrimEnd(s: string): (r: string)
    ensures |r| <= |s| && r == s[..|r|]
    ensures forall i :: |r| <= i < |s| ==> IsWhitespace(s[i])
    ensures r == [] || !IsWhitespace(r[|r| - 1])
  {
    if s != [] && IsWhitespace(s[|s| - 1]) then TrimEnd(s[..|s| - 1]) else s
  }

  /** `trim`: the infix of `s` left after removing whitespace from both ends. */
  function Trim(s: string): (r: string)
  {
    TrimEnd(TrimStart(s))
  }

  /** `trim` removes whitespace, and only whitespace, from the two ends: the result is
      the infix `s[i..j]` whose surroundings are all whitespace and whose own ends are not. */
  lemma TrimIsInfix(s: string)
    ensures exists i, j ::
              && 0 <= i <= j <= |s| && Trim(s) == s[i..j]
              && (forall k :: 0 <= k < i ==> IsWhitespace(s[k]))
              && (forall k :: j <= k < |s| ==> IsWhitespace(s[k]))
    ensures Trim(s) == [] || (!IsWhitespace(Trim(s)[0]) && !IsWhitespace(Trim(s)[|Trim(s)| - 1]))
  {
    var i, j := TrimBounds(s);
    TrimEnds(s);
  }

  lemma TrimBounds(s: string) returns (i: nat, j: nat)
    ensures 0 <= i <= j <= |s| && Trim(s) == s[i..j]
    ensures forall k :: 0 <= k < i ==> IsWhitespace(s[k])
    ensures forall k :: j <= k < |s| ==> IsWhitespace(s[k])
  {
    var a := TrimStart(s);
    var r := TrimEnd(a);
    i := |s| - |a|;
    j := i + |r|;
    SliceOfSlice(s, i, j);
    forall k | j <= k < |s| ensures IsWhitespace(s[k]) {
      assert s[k] == a[k - i];
    }
  }

  lemma SliceOfSlice(s: string, i: nat, j: nat)
    requires i <= j <= |s|
    ensures s[i..j] == s[i..][..j - i]
  {
  }

  lemma TrimEnds(s: string)
    ensures Trim(s) == [] || (!IsWhitespace(Trim(s)[0]) && !IsWhitespace(Trim(s)[|Trim(s)| - 1]))
  {
    var a := TrimStart(s);
    var r := TrimEnd(a);
    if r != [] {
      assert r[0] == a[0];
    }
  }

  /** Trimming only removes characters. */
  lemma TrimMembers(s: string, c: char)
    requires c in Trim(s)
    ensures c in s
  {
    var a := TrimStart(s);
    var i :| 0 <= i < |Trim(s)| && Trim(s)[i] == c;
    assert Trim(s)[i] == a[i];
    assert a[i] == s[|s| - |a| + i];
  }

  /** A string with no whitespace at either end is left alone by `trim`. */
  lemma TrimOfTrimmed(s: string)
    requires s == [] || (!IsWhitespace(s[0]) && !IsWhitespace(s[|s| - 1]))
    ensures Trim(s) == s
  {
  }

  /** `parts.join("")`. */
  function Concat(parts: seq<string>): (r: string)
    ensures parts == [] ==> r == []
  {
    if parts == [] then [] else parts[0] + Concat(parts[1..])
  }

  lemma ConcatCons(x: string, rest: seq<string>)
    ensures Concat([x] + rest) == x + Concat(rest)
  {
    assert ([x] + rest)[1..] == rest;
  }

  lemma {:induction false} ConcatAppend(a: seq<string>, b: seq<string>)
    ensures Concat(a + b) == Concat(a) + Concat(b)
  {
    if a == [] {
      assert a + b == b;
    } else {
      assert (a + b)[1..] == a[1..] + b;
      ConcatAppend(a[1..], b);
    }
  }

  /** What each character of `s` becomes under `ReplaceAny`. */
  function Pieces(s: string, targets: set<char>, rep: string): (r: seq<string>)
    ensures |r| == |s|
  {
    seq(|s|, i requires 0 <= i < |s| => if s[i] in targets then rep else [s[i]])
  }

  /** `s.replace(/[…]/g, rep)`: every character in `targets` becomes `rep`. */
  function ReplaceAny(s: string, targets: set<char>, rep: string): string {
    Concat(seq(|s|, i requires 0 <= i < |s| => if s[i] in targets then rep else [s[i]]))
  }

  /** Replacing in `[c] + t`: what `c` becomes, then the replacement of `t`. */
  lemma ReplaceAnyCons(c: char, t: string, targets: set<char>, rep: string)
    ensures ReplaceAny([c] + t, targets, rep)
         == (if c in targets then rep else [c]) + ReplaceAny(t, targets, rep)
  {
    assert ReplaceAny([c] + t, targets, rep) == Concat(Pieces([c] + t, targets, rep));
    assert ReplaceAny(t, targets, rep) == Concat(Pieces(t, targets, rep));
    assert Pieces([c] + t, targets, rep)[1..] == Pieces(t, targets, rep);
  }

  lemma ReplaceAnyOne(c: char, targets: set<char>, rep: string)
    ensures ReplaceAny([c], targets, rep) == if c in targets then rep else [c]
  {
    ReplaceAnyCons(c, [], targets, rep);
    assert [c] + [] == [c];
  }

  lemma ReplaceAnyAppend(a: string, b: string, targets: set<char>, rep: string)
    ensures ReplaceAny(a + b, targets, rep) == ReplaceAny(a, targets, rep) + ReplaceAny(b, targets, rep)
  {
    assert ReplaceAny(a + b, targets, rep) == Concat(Pieces(a + b, targets, rep));
    assert ReplaceAny(a, targets, rep) == Concat(Pieces(a, targets, rep));
    assert ReplaceAny(b, targets, rep) == Concat(Pieces(b, targets, rep));
    assert Pieces(a + b, targets, rep) == Pieces(a, targets, rep) + Pieces(b, targets, rep);
    ConcatAppend(Pieces(a, targets, rep), Pieces(b, targets, rep));
  }

  /** A character of the result is an untouched character of `s` or one of `rep`. */
  lemma {:induction false} ReplaceAnyMembers(s: string, targets: set<char>, rep: string, c: char)
    requires c in ReplaceAny(s, targets, rep)
    ensures (c in s && c !in targets) || c in rep
  {
    if s != [] {
      assert s == [s[0]] + s[1..];
      ReplaceAnyCons(s[0], s[1..], targets, rep);
      var head := if s[0] in targets then rep else [s[0]];
      if c !in head {
        ReplaceAnyMembers(s[1..], targets, rep, c);
      }
    }
  }

  /** Nothing to replace: the string is returned as it was. */
  lemma {:induction false} ReplaceAnyNoTargets(s: string, targets: set<char>, rep: string)
    requires forall c :: c in s ==> c !in targets
    ensures ReplaceAny(s, targets, rep) == s
  {
    if s != [] {
      assert s == [s[0]] + s[1..];
      ReplaceAnyCons(s[0], s[1..], targets, rep);
      ReplaceAnyNoTargets(s[1..], targets, rep);
    }
  }

  /** `s.replace(/\s+/g, "")`: every whitespace character goes. */
  function RemoveWhitespace(s: string): string {
    Concat(seq(|s|, i requires 0 <= i < |s| => if IsWhitespace(s[i]) then "" else [s[i]]))
  }

  lemma RemoveWhitespaceCons(c: char, t: string)
    ensures RemoveWhitespace([c] + t)
         == (if IsWhitespace(c) then "" else [c]) + RemoveWhitespace(t)
  {
    var ps := seq(|[c] + t|, i requires 0 <= i < |[c] + t| =>
                if IsWhitespace(([c] + t)[i]) then "" else [([c] + t)[i]]);
    var qs := seq(|t|, i requires 0 <= i < |t| => if IsWhitespace(t[i]) then "" else [t[i]]);
    assert ps[1..] == qs;
  }

  /** What is left is exactly the non-whitespace of `s`. */
  lemma {:induction false} RemoveWhitespaceMembers(s: string, c: char)
    ensures c in RemoveWhitespace(s) <==> c in s && !IsWhitespace(c)
  {
    if s != [] {
      assert s == [s[0]] + s[1..];
      RemoveWhitespaceCons(s[0], s[1..]);
      RemoveWhitespaceMembers(s[1..], c);
    }
  }

  lemma {:induction false} RemoveWhitespaceOfNone(s: string)
    requires forall c :: c in s ==> !IsWhitespace(c)
    ensures RemoveWhitespace(s) == s
  {
    if s != [] {
      assert s == [s[0]] + s[1..];
      RemoveWhitespaceCons(s[0], s[1..]);
      RemoveWhitespaceOfNone(s[1..]);
    }
  }
}
