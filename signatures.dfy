/**
 * The signature-string helpers of src/core/utils.mjs: trimming, splitting a
 * typed-function signature into its comma-separated type list, collecting
 * the word-character runs it mentions, and the subset-of-keys test.
 */
module Signatures {

  /**
   * The characters String.prototype.trim removes: white space (tab, vertical
   * tab, form feed, space, no-break space, the byte order mark and the
   * Unicode space separators) and line terminators (line feed, carriage
   * return, line and paragraph separators).
   */
  predicate IsSpace(c: char) {
    ('\t' <= c <= '\r') || c == ' ' || c == '\U{00A0}' || c == '\U{1680}' ||
    ('\U{2000}' <= c <= '\U{200A}') || c == '\U{2028}' || c == '\U{2029}' ||
    c == '\U{202F}' || c == '\U{205F}' || c == '\U{3000}' || c == '\U{FEFF}'
  }

  /** The regular-expression class \w (without the unicode flag); \d is contained in it. */
  predicate IsWordChar(c: char) {
    ('a' <= c <= 'z') || ('A' <= c <= 'Z') || ('0' <= c <= '9') || c == '_'
  }

  /** A character matched by the class [^\w\d]. */
  predicate IsNonWord(c: char) {
    !IsWordChar(c)
  }

  predicate IsComma(c: char) {
    c == ','
  }

  /** A string with no white space at either end. */
  predicate IsTrimmed(t: string) {
    t == [] || (!IsSpace(t[0]) && !IsSpace(t[|t| - 1]))
  }

  predicate AllSpace(s: string) {
    forall k :: 0 <= k < |s| ==> IsSpace(s[k])
  }

  /** Removes the maximal run of white space at the front. */
  function TrimStart(s: string): (r: string)
    ensures |r| <= |s| && r == s[|s| - |r|..]
    ensures AllSpace(s[..|s| - |r|])
    ensures r == [] || !IsSpace(r[0])
  {
    if s == [] || !IsSpace(s[0]) then s else TrimStart(s[1..])
  }

  /** Removes the maximal run of white space at the back. */
  function TrimEnd(s: string): (r: string)
    ensures |r| <= |s| && r == s[..|r|]
    ensures AllSpace(s[|r|..])
    ensures r == [] || !IsSpace(r[|r| - 1])
  {
    if s == [] || !IsSpace(s[|s| - 1]) then s
    else
      var init := s[..|s| - 1];
      var r := TrimEnd(init);
      assert s[|r|..] == init[|r|..] + [s[|s| - 1]];
      assert init[..|r|] == s[..|r|];
      r
  }

  /**
   * String.prototype.trim: a trimmed string with only characters of s, empty
   * exactly when s is all white space; TrimMiddle places it inside s.
   */
  function Trim(s: string): (r: string)
    ensures IsTrimmed(r)
    ensures r == [] <==> AllSpace(s)
    ensures forall c :: c in r ==> c in s
  {
    var r := TrimEnd(TrimStart(s));
    TrimEmpty(s);
    TrimChars(s);
    r
  }

  /** The length of the white space that trimming cuts off the front of s. */
  function LeadingSpace(s: string): (n: nat)
    ensures n <= |s| && AllSpace(s[..n])
    ensures n < |s| ==> !IsSpace(s[n])
  {
    var front := TrimStart(s);
    assert front != [] ==> s[|s| - |front|] == front[0];
    |s| - |front|
  }

  /**
   * Trim(s) is the contiguous part of s that starts right after its leading
   * white space and is followed by nothing but white space.
   */
  lemma TrimMiddle(s: string)
    ensures var i, r := LeadingSpace(s), Trim(s);
      i + |r| <= |s| && r == s[i..i + |r|] && AllSpace(s[i + |r|..])
  {
    var i, r, front := LeadingSpace(s), Trim(s), TrimStart(s);
    assert r == TrimEnd(front) && i == |s| - |front|;
    PrefixOfSuffix(s, front, r, i);
  }

  /** A prefix r of the suffix s[i..], followed there by white space only, is the slice s[i..i + |r|]. */
  lemma PrefixOfSuffix(s: string, front: string, r: string, i: nat)
    requires i <= |s| && front == s[i..] && |r| <= |front| && r == front[..|r|] && AllSpace(front[|r|..])
    ensures i + |r| <= |s| && r == s[i..i + |r|] && AllSpace(s[i + |r|..])
  {
    assert front[|r|..] == s[i + |r|..];
  }

  /** Trimming keeps a middle part of s, so only characters of s. */
  lemma TrimChars(s: string)
    ensures forall c :: c in TrimEnd(TrimStart(s)) ==> c in s
  {
    var front := TrimStart(s);
    var r := TrimEnd(front);
    forall c | c in r
      ensures c in s
    {
      InPrefix(front, r, c);
      InSuffix(s, front, c);
    }
  }

  lemma InPrefix(s: string, r: string, c: char)
    requires |r| <= |s| && r == s[..|r|] && c in r
    ensures c in s
  {
    var k :| 0 <= k < |r| && r[k] == c;
    assert s[k] == c;
  }

  lemma InSuffix(s: string, r: string, c: char)
    requires |r| <= |s| && r == s[|s| - |r|..] && c in r
    ensures c in s
  {
    var k :| 0 <= k < |r| && r[k] == c;
    assert s[|s| - |r| + k] == c;
  }

  lemma TrimEmpty(s: string)
    ensures TrimEnd(TrimStart(s)) == [] <==> AllSpace(s)
  {
    var front := TrimStart(s);
    var r := TrimEnd(front);
    var lead := |s| - |front|;
    assert r == [] ==> front[|r|..] == front;
    assert front == [] ==> s[..lead] == s;
    assert front != [] ==> s[lead] == front[0];
  }

  /** Trimming a trimmed string changes nothing. */
  lemma TrimIdempotent(t: string)
    requires IsTrimmed(t)
    ensures Trim(t) == t
  {
  }

  // ---------------------------------------------------------------------
  // String.prototype.split with a one-character separator class

  function CountWhere(s: string, isSep: char -> bool): nat {
    if s == [] then 0 else (if isSep(s[0]) then 1 else 0) + CountWhere(s[1..], isSep)
  }

  predicate NoSep(p: string, isSep: char -> bool) {
    forall c :: c in p ==> !isSep(c)
  }

  /** Splits s at every separator: one more piece than separators, none holding a separator. */
  function Split(s: string, isSep: char -> bool): (parts: seq<string>)
    ensures |parts| == CountWhere(s, isSep) + 1
    ensures forall p :: p in parts ==> NoSep(p, isSep)
  {
    if s == [] then [""]
    else
      var rest := Split(s[1..], isSep);
      if isSep(s[0]) then [""] + rest
      else
        assert rest[0] in rest;
        assert NoSep([s[0]] + rest[0], isSep);
        [[s[0]] + rest[0]] + rest[1..]
  }

  /** Array.prototype.join with a one-character separator: the reference inverse of Split. */
  function Join(parts: seq<string>, sep: char): string
    requires |parts| >= 1
  {
    if |parts| == 1 then parts[0] else parts[0] + [sep] + Join(parts[1..], sep)
  }

  /** Joining the pieces with the separator gives back the original string. */
  lemma {:induction false} JoinSplit(s: string, sep: char, isSep: char -> bool)
    requires forall c :: isSep(c) <==> c == sep
    ensures Join(Split(s, isSep), sep) == s
  {
    if s != [] {
      var rest := Split(s[1..], isSep);
      JoinSplit(s[1..], sep, isSep);
      if isSep(s[0]) {
        assert ([""] + rest)[1..] == rest;
      } else {
        var parts := [[s[0]] + rest[0]] + rest[1..];
        if |rest| > 1 {
          assert parts[1..] == rest[1..];
          assert Join(rest, sep) == rest[0] + [sep] + Join(rest[1..], sep);
        }
      }
    }
  }

  /** Splitting a join of separator-free pieces gives back the pieces, in order. */
  lemma {:induction false} SplitJoin(parts: seq<string>, sep: char, isSep: char -> bool)
    requires forall c :: isSep(c) <==> c == sep
    requires |parts| >= 1
    requires forall p :: p in parts ==> NoSep(p, isSep)
    ensures Split(Join(parts, sep), isSep) == parts
  {
    if |parts| == 1 {
      SplitFree(parts[0], isSep);
    } else {
      var tail := Join(parts[1..], sep);
      SplitJoin(parts[1..], sep, isSep);
      SplitPrefix(parts[0], [sep] + tail, isSep);
      assert (parts[0] + [sep] + tail) == parts[0] + ([sep] + tail);
      assert ([sep] + tail)[1..] == tail;
      var st := Split([sep] + tail, isSep);
      assert st == [""] + parts[1..];
      assert parts[0] + st[0] == parts[0];
      assert [parts[0]] + parts[1..] == parts;
    }
  }

  /** A separator-free string is one piece. */
  lemma {:induction false} SplitFree(p: string, isSep: char -> bool)
    requires NoSep(p, isSep)
    ensures Split(p, isSep) == [p]
  {
    if p != [] {
      SplitFree(p[1..], isSep);
      assert [p[0]] + p[1..] == p;
    }
  }

  /** A separator-free prefix is glued onto the first piece of what follows it. */
  lemma {:induction false} SplitPrefix(p: string, t: string, isSep: char -> bool)
    requires NoSep(p, isSep)
    ensures Split(p + t, isSep) == [p + Split(t, isSep)[0]] + Split(t, isSep)[1..]
  {
    if p != [] {
      SplitPrefix(p[1..], t, isSep);
      assert (p + t)[1..] == p[1..] + t;
      assert [p[0]] + (p[1..] + Split(t, isSep)[0]) == p + Split(t, isSep)[0];
    } else {
      assert p + t == t;
      assert p + Split(t, isSep)[0] == Split(t, isSep)[0];
      assert [Split(t, isSep)[0]] + Split(t, isSep)[1..] == Split(t, isSep);
    }
  }

  /** Every non-separator character of s lies in some piece: piece k. */
  lemma {:induction false} SplitCovers(s: string, isSep: char -> bool, i: int) returns (k: nat)
    requires 0 <= i < |s| && !isSep(s[i])
    ensures k < |Split(s, isSep)| && s[i] in Split(s, isSep)[k]
  {
    var rest := Split(s[1..], isSep);
    if i == 0 {
      assert s[0] in ([s[0]] + rest[0]);
      k := 0;
    } else {
      var k1 := SplitCovers(s[1..], isSep, i - 1);
      assert s[1..][i - 1] == s[i];
      if isSep(s[0]) {
        k := k1 + 1;
        assert Split(s, isSep)[k] == rest[k1];
      } else if k1 == 0 {
        k := 0;
        assert s[i] in [s[0]] + rest[0];
      } else {
        k := k1;
        assert Split(s, isSep)[k] == rest[k1];
      }
    }
  }

  /**
   * s[i..j] is a piece of the split of s: it holds no separator, and it is
   * bounded on each side by a separator or by an end of s.
   */
  predicate PieceAt(s: string, i: int, j: int, isSep: char -> bool) {
    0 <= i <= j <= |s| && (i == 0 || isSep(s[i - 1])) && (j == |s| || isSep(s[j])) &&
    forall k :: i <= k < j ==> !isSep(s[k])
  }

  /** p is the text of a piece of s that starts at index lo or later. */
  ghost predicate PieceFrom(s: string, p: string, isSep: char -> bool, lo: int) {
    exists i, j :: lo <= i && PieceAt(s, i, j, isSep) && p == s[i..j]
  }

  /** A piece ends at the first separator after its start. */
  lemma PieceUnique(s: string, i: int, j: int, j2: int, isSep: char -> bool)
    requires PieceAt(s, i, j, isSep) && PieceAt(s, i, j2, isSep)
    ensures j == j2
  {
  }

  /** Pieces of s[1..] are the pieces of s shifted by one, except one at the front when s[0] is no separator. */
  lemma PieceShift(s: string, i: int, j: int, isSep: char -> bool)
    requires |s| > 0 && 0 <= i
    ensures PieceAt(s[1..], i, j, isSep) && (i > 0 || isSep(s[0])) <==> PieceAt(s, i + 1, j + 1, isSep)
    ensures i <= j <= |s| - 1 ==> s[1..][i..j] == s[i + 1..j + 1]
  {
    if i <= j <= |s| - 1 {
      assert s[1..][i..j] == s[i + 1..j + 1];
      if forall k :: i <= k < j ==> !isSep(s[1..][k]) {
        forall k | i + 1 <= k < j + 1
          ensures !isSep(s[k])
        {
          assert s[k] == s[1..][k - 1];
        }
      }
      if forall k :: i + 1 <= k < j + 1 ==> !isSep(s[k]) {
        forall k | i <= k < j
          ensures !isSep(s[1..][k])
        {
          assert s[1..][k] == s[k + 1];
        }
      }
      if i > 0 {
        assert s[1..][i - 1] == s[i];
      }
      if j < |s| - 1 {
        assert s[1..][j] == s[j + 1];
      }
    }
  }

  /** The first piece of the split runs from the start of s to its first separator. */
  lemma {:induction false} SplitHead(s: string, isSep: char -> bool) returns (j: int)
    ensures PieceAt(s, 0, j, isSep) && Split(s, isSep)[0] == s[..j]
  {
    if s == [] {
      j := 0;
    } else if isSep(s[0]) {
      j := 0;
    } else {
      var j1 := SplitHead(s[1..], isSep);
      j := j1 + 1;
      PieceShift(s, 0, j1, isSep);
      assert !isSep(s[0]);
      forall k | 0 <= k < j
        ensures !isSep(s[k])
      {
        if k > 0 {
          assert s[k] == s[1..][k - 1];
        }
      }
      assert [s[0]] + s[1..][..j1] == s[..j];
    }
  }

  /** Shifting by one character: pieces of s[1..] after its first are the pieces of s from index 2. */
  lemma ShiftFrom(s: string, p: string, isSep: char -> bool)
    requires |s| > 0
    ensures PieceFrom(s[1..], p, isSep, 1) <==> PieceFrom(s, p, isSep, 2)
  {
    if PieceFrom(s[1..], p, isSep, 1) {
      var i, j :| 1 <= i && PieceAt(s[1..], i, j, isSep) && p == s[1..][i..j];
      PieceShift(s, i, j, isSep);
    }
    if PieceFrom(s, p, isSep, 2) {
      var i, j :| 2 <= i && PieceAt(s, i, j, isSep) && p == s[i..j];
      PieceShift(s, i - 1, j - 1, isSep);
    }
  }

  /** No piece starts at index 1 when s[0] is not a separator. */
  lemma NoPieceAtOne(s: string, p: string, isSep: char -> bool)
    requires |s| > 0 && !isSep(s[0])
    ensures PieceFrom(s, p, isSep, 1) <==> PieceFrom(s, p, isSep, 2)
  {
    if PieceFrom(s, p, isSep, 1) {
      var i, j :| 1 <= i && PieceAt(s, i, j, isSep) && p == s[i..j];
      assert i != 1;
    }
  }

  /** When s[0] is a separator, the piece at index 1 is the first piece of s[1..]. */
  lemma PieceAtOne(s: string, p: string, isSep: char -> bool, h: int)
    requires |s| > 0 && isSep(s[0]) && PieceAt(s[1..], 0, h, isSep)
    ensures PieceFrom(s, p, isSep, 1) <==> p == s[1..][..h] || PieceFrom(s, p, isSep, 2)
  {
    PieceShift(s, 0, h, isSep);
    if PieceFrom(s, p, isSep, 1) {
      var i, j :| 1 <= i && PieceAt(s, i, j, isSep) && p == s[i..j];
      if i == 1 {
        PieceShift(s, 0, j - 1, isSep);
        PieceUnique(s[1..], 0, j - 1, h, isSep);
      }
    }
    if p == s[1..][..h] {
      assert PieceAt(s, 1, h + 1, isSep) && p == s[1..h + 1];
    }
  }

  /** The pieces after the first are exactly the pieces of s that start after a separator. */
  lemma {:induction false} SplitTail(s: string, isSep: char -> bool)
    ensures forall p :: p in Split(s, isSep)[1..] <==> PieceFrom(s, p, isSep, 1)
  {
    if s != [] {
      var rest := Split(s[1..], isSep);
      SplitTail(s[1..], isSep);
      var h := SplitHead(s[1..], isSep);
      assert rest == [rest[0]] + rest[1..];
      if isSep(s[0]) {
        assert Split(s, isSep)[1..] == rest;
        forall p
          ensures p in rest <==> PieceFrom(s, p, isSep, 1)
        {
          ShiftFrom(s, p, isSep);
          PieceAtOne(s, p, isSep, h);
        }
      } else {
        assert Split(s, isSep)[1..] == rest[1..];
        forall p
          ensures p in rest[1..] <==> PieceFrom(s, p, isSep, 1)
        {
          ShiftFrom(s, p, isSep);
          NoPieceAtOne(s, p, isSep);
        }
      }
    }
  }

  /** The pieces of the split are exactly the separator-bounded, separator-free slices of s. */
  lemma SplitPieces(s: string, isSep: char -> bool)
    ensures forall p :: p in Split(s, isSep) <==> PieceFrom(s, p, isSep, 0)
  {
    var parts := Split(s, isSep);
    var h := SplitHead(s, isSep);
    SplitTail(s, isSep);
    forall p | p in parts
      ensures PieceFrom(s, p, isSep, 0)
    {
      var k :| 0 <= k < |parts| && parts[k] == p;
      if k == 0 {
        assert PieceAt(s, 0, h, isSep) && p == s[0..h];
      } else {
        assert parts[1..][k - 1] == p;
      }
    }
    forall p | PieceFrom(s, p, isSep, 0)
      ensures p in parts
    {
      var i, j :| 0 <= i && PieceAt(s, i, j, isSep) && p == s[i..j];
      if i == 0 {
        PieceUnique(s, 0, j, h, isSep);
        assert p == parts[0];
      } else {
        assert PieceFrom(s, p, isSep, 1);
        var k :| 0 <= k < |parts[1..]| && parts[1..][k] == p;
        assert parts[k + 1] == p;
      }
    }
  }

  // ---------------------------------------------------------------------
  // The three exported helpers

  /**
   * typeListOfSignature: [] for an empty or all-white-space signature,
   * otherwise one trimmed, comma-free entry per comma-separated piece.
   */
  function TypeListOfSignature(signature: string): (types: seq<string>)
    ensures AllSpace(signature) ==> types == []
    ensures !AllSpace(signature) ==> |types| == CountWhere(Trim(signature), IsComma) + 1
    ensures forall i :: 0 <= i < |types| ==> IsTrimmed(types[i]) && NoSep(types[i], IsComma)
  {
    var s := Trim(signature);
    if s == [] then []
    else
      var parts := Split(s, IsComma);
      var types := seq(|parts|, i requires 0 <= i < |parts| => Trim(parts[i]));
      TrimmedPieces(parts, types, IsComma);
      types
  }

  /** Trimming separator-free pieces leaves them trimmed and separator-free. */
  lemma TrimmedPieces(parts: seq<string>, types: seq<string>, isSep: char -> bool)
    requires |types| == |parts| && forall i :: 0 <= i < |parts| ==> types[i] == Trim(parts[i])
    requires forall p :: p in parts ==> NoSep(p, isSep)
    ensures forall i :: 0 <= i < |types| ==> IsTrimmed(types[i]) && NoSep(types[i], isSep)
  {
    forall i | 0 <= i < |types|
      ensures IsTrimmed(types[i]) && NoSep(types[i], isSep)
    {
      assert parts[i] in parts;
    }
  }

  /** The entries, read left to right, are the trimmed comma-separated pieces of the trimmed signature. */
  lemma TypeListInOrder(signature: string, i: int)
    requires !AllSpace(signature) && 0 <= i < |TypeListOfSignature(signature)|
    ensures TypeListOfSignature(signature)[i] == Trim(Split(Trim(signature), IsComma)[i])
  {
  }

  /** typesOfSignature: the non-empty maximal runs of word characters. */
  function TypesOfSignature(signature: string): (types: set<string>)
    ensures "" !in types
    ensures forall t :: t in types ==> NoSep(t, IsNonWord)
  {
    set p | p in Split(signature, IsNonWord) && p != ""
  }

  /**
   * s[i..j] is a maximal run of word characters of s: non-empty, made of
   * word characters only, and not extendable at either end.
   */
  predicate MaximalWordRun(s: string, i: int, j: int) {
    0 <= i < j <= |s| && IsWord(s[i..j]) &&
    (i == 0 || IsNonWord(s[i - 1])) && (j == |s| || IsNonWord(s[j]))
  }

  /** A maximal word run is a non-empty piece of the split at non-word characters. */
  lemma MaximalRunPiece(s: string, i: int, j: int)
    ensures MaximalWordRun(s, i, j) <==> i < j && PieceAt(s, i, j, IsNonWord)
  {
    if 0 <= i < j <= |s| {
      forall k | i <= k < j
        ensures s[k] == s[i..j][k - i]
      {
      }
    }
  }

  /** typesOfSignature is exactly the set of maximal runs of word characters of the signature. */
  lemma TypesOfSignatureRuns(signature: string, t: string)
    ensures t in TypesOfSignature(signature) <==>
      exists i, j :: MaximalWordRun(signature, i, j) && t == signature[i..j]
  {
    SplitPieces(signature, IsNonWord);
    if t in TypesOfSignature(signature) {
      assert PieceFrom(signature, t, IsNonWord, 0);
      var i, j :| 0 <= i && PieceAt(signature, i, j, IsNonWord) && t == signature[i..j];
      MaximalRunPiece(signature, i, j);
    }
    if exists i, j :: MaximalWordRun(signature, i, j) && t == signature[i..j] {
      var i, j :| MaximalWordRun(signature, i, j) && t == signature[i..j];
      MaximalRunPiece(signature, i, j);
      assert PieceFrom(signature, t, IsNonWord, 0);
    }
  }

  /** 'a,b' names two types: the comma separates, so no name spans it. */
  lemma TypesOfSignatureExample()
    ensures TypesOfSignature("a,b") == {"a", "b"}
  {
    var a, b, comma := "a", "b", ",";
    assert IsWordChar(a[0]) && IsWordChar(b[0]) && IsNonWord(comma[0]);
    SplitFree(b, IsNonWord);
    assert (comma + b)[1..] == b;
    SplitPrefix(a, comma + b, IsNonWord);
    assert "a,b" == a + (comma + b) && a + "" == a;
    var parts := Split("a,b", IsNonWord);
    assert parts == ["a", "b"];
    assert parts[0] in parts && parts[1] in parts;
  }

  /** No word character of the signature is lost: each one lies in some returned type name. */
  lemma TypesOfSignatureCover(signature: string, i: int)
    requires 0 <= i < |signature| && IsWordChar(signature[i])
    ensures exists t :: t in TypesOfSignature(signature) && signature[i] in t
  {
    var k := SplitCovers(signature, IsNonWord, i);
    var p := Split(signature, IsNonWord)[k];
    assert p in TypesOfSignature(signature);
  }

  /** subsetOfKeys: true iff every element of the set is a key of the object (so true for the empty set). */
  method SubsetOfKeys<V>(elements: set<string>, obj: map<string, V>) returns (r: bool)
    ensures r <==> elements <= obj.Keys
  {
    var rest := elements;
    while rest != {}
      invariant rest <= elements
      invariant elements - rest <= obj.Keys
      decreases |rest|
    {
      var e :| e in rest;
      if e !in obj {
        return false;
      }
      rest := rest - {e};
    }
    return true;
  }

  lemma TypeListExamples()
    ensures TypeListOfSignature("") == [] && TypeListOfSignature("  ") == []
  {
    var two := "  ";
    assert two[0] == ' ' && two[1] == ' ';
    assert AllSpace(two);
  }

  predicate IsWord(t: string) {
    t != [] && forall k :: 0 <= k < |t| ==> IsWordChar(t[k])
  }

  /** The pieces of b + ">" at non-word characters, for a word b. */
  lemma SplitClosing(b: string) returns (parts: seq<string>)
    requires IsWord(b)
    ensures parts == Split(b + ">", IsNonWord) && parts == [b, ""]
  {
    var gt := ">";
    assert gt[1..] == [] && !IsWordChar(gt[0]);
    assert Split(gt, IsNonWord) == ["", ""];
    SplitPrefix(b, gt, IsNonWord);
    assert b + "" == b;
    parts := Split(b + gt, IsNonWord);
  }

  /** The pieces of a + "<" + b + ">" at non-word characters, for words a and b. */
  lemma SplitTemplate(a: string, b: string) returns (parts: seq<string>)
    requires IsWord(a) && IsWord(b)
    ensures parts == Split(a + "<" + b + ">", IsNonWord) && parts == [a, b, ""]
  {
    var tail := SplitClosing(b);
    var inner := "<" + (b + ">");
    assert inner[0] == '<' && inner[1..] == b + ">";
    assert Split(inner, IsNonWord) == ["", b, ""];
    SplitPrefix(a, inner, IsNonWord);
    assert a + "<" + b + ">" == a + inner && a + "" == a;
    parts := Split(a + inner, IsNonWord);
  }

  /**
   * typesOfSignature of a template instance such as 'Tuple<T>' is the
   * template name and its parameter: the angle brackets separate.
   */
  lemma TypesOfTemplate(a: string, b: string)
    requires IsWord(a) && IsWord(b)
    ensures TypesOfSignature(a + "<" + b + ">") == {a, b}
  {
    var parts := SplitTemplate(a, b);
    var ts := TypesOfSignature(a + "<" + b + ">");
    assert parts[0] in parts && parts[1] in parts;
    assert a in ts && b in ts;
    forall p | p in ts
      ensures p == a || p == b
    {
      assert p in parts && p != parts[2];
    }
  }
}
