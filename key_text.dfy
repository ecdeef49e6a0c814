/**
 * The text form of a key list. A set stores its keys as one string; `splitKeys`
 * turns any such text into the list of keys, and the handlers write lists back
 * joined with line feeds.
 */
module KeyText {

  import Seqs

  /** The characters `String.prototype.trim` strips: white space and line terminators. */
  predicate IsJsWhitespace(c: char) {
    c == '\t' || c == '\n' || c == '\U{B}' || c == '\U{C}' || c == '\r' || c == ' ' ||
    c == '\U{A0}' || c == '\U{1680}' || ('\U{2000}' <= c <= '\U{200A}') ||
    c == '\U{2028}' || c == '\U{2029}' || c == '\U{202F}' || c == '\U{205F}' ||
    c == '\U{3000}' || c == '\U{FEFF}'
  }

  /** The characters the pattern `/[\n;]/` splits on. */
  predicate IsSeparator(c: char) {
    c == '\n' || c == ';'
  }

  predicate AllWhitespace(s: string) {
    forall j :: 0 <= j < |s| ==> IsJsWhitespace(s[j])
  }

  predicate SeparatorFree(s: string) {
    forall j :: 0 <= j < |s| ==> !IsSeparator(s[j])
  }

  /** Neither end of `s` is white space. */
  predicate IsTrimmed(s: string) {
    |s| > 0 ==> !IsJsWhitespace(s[0]) && !IsJsWhitespace(s[|s| - 1])
  }

  /** What a stored key looks like: non-empty, trimmed, and free of separators. */
  predicate IsKey(k: string) {
    k != "" && IsTrimmed(k) && SeparatorFree(k)
  }

  predicate AllKeys(ks: seq<string>) {
    forall i :: 0 <= i < |ks| ==> IsKey(ks[i])
  }

  predicate AllSeparatorFree(ps: seq<string>) {
    forall i :: 0 <= i < |ps| ==> SeparatorFree(ps[i])
  }

  function TrimStart(s: string): (r: string)
    ensures |r| <= |s| && r == s[|s| - |r|..]
    ensures AllWhitespace(s[..|s| - |r|])
    ensures |r| > 0 ==> !IsJsWhitespace(r[0])
  {
    if |s| > 0 && IsJsWhitespace(s[0]) then TrimStart(s[1..]) else s
  }

  function TrimEnd(s: string): (r: string)
    ensures |r| <= |s| && r == s[..|r|]
    ensures AllWhitespace(s[|r|..])
    ensures |r| > 0 ==> !IsJsWhitespace(r[|r| - 1])
  {
    if |s| > 0 && IsJsWhitespace(s[|s| - 1]) then TrimEnd(s[..|s| - 1]) else s
  }

  /** `String.prototype.trim`. */
  function Trim(s: string): (r: string)
    ensures exists i, j :: 0 <= i <= j <= |s| && r == s[i..j] && AllWhitespace(s[..i]) && AllWhitespace(s[j..])
    ensures IsTrimmed(r)
    ensures r == "" <==> AllWhitespace(s)
    ensures IsTrimmed(s) ==> r == s
    ensures SeparatorFree(s) ==> SeparatorFree(r)
  {
    TrimFacts(s);
    TrimEnd(TrimStart(s))
  }

  lemma TrimFacts(s: string)
    ensures var r := TrimEnd(TrimStart(s));
      (exists i, j :: 0 <= i <= j <= |s| && r == s[i..j] && AllWhitespace(s[..i]) && AllWhitespace(s[j..])) &&
      (r == "" <==> AllWhitespace(s)) &&
      (IsTrimmed(s) ==> r == s) &&
      (SeparatorFree(s) ==> SeparatorFree(r))
  {
    TrimSlice(s);
    TrimEmpty(s);
    if SeparatorFree(s) {
      TrimInfix(s);
    }
  }

  /** Trimming keeps a middle slice of the text and cuts only white space on each side. */
  lemma TrimSlice(s: string)
    ensures var r := TrimEnd(TrimStart(s));
      exists i, j :: 0 <= i <= j <= |s| && r == s[i..j] && AllWhitespace(s[..i]) && AllWhitespace(s[j..])
  {
    var t := TrimStart(s);
    var r := TrimEnd(t);
    var i := |s| - |t|;
    var j := i + |r|;
    Seqs.SliceOfSuffix(s, i, |r|);
    assert AllWhitespace(s[..i]) && AllWhitespace(s[j..]);
  }

  lemma TrimEmpty(s: string)
    ensures TrimEnd(TrimStart(s)) == "" <==> AllWhitespace(s)
  {
    var t := TrimStart(s);
    if TrimEnd(t) == "" {
      assert t == "";
      assert s == s[..|s| - |t|];
    }
  }

  lemma TrimInfix(s: string)
    requires SeparatorFree(s)
    ensures SeparatorFree(TrimEnd(TrimStart(s)))
  {
    var t := TrimStart(s);
    var r := TrimEnd(t);
    var i := |s| - |t|;
    Seqs.SliceOfSuffix(s, i, |r|);
    SeparatorFreeSlice(s, i, i + |r|);
  }

  lemma SeparatorFreeSlice(s: string, i: int, j: int)
    requires SeparatorFree(s) && 0 <= i <= j <= |s|
    ensures SeparatorFree(s[i..j])
  {
    forall k | 0 <= k < j - i ensures !IsSeparator(s[i..j][k]) {
      assert s[i..j][k] == s[i + k];
    }
  }


  /** `s.split(/[\n;]/)`: the pieces between separators, empty ones included. */
  function Pieces(s: string): (r: seq<string>)
    ensures |r| >= 1
    ensures AllSeparatorFree(r)
  {
    if s == "" then [""]
    else
      var rest := Pieces(s[1..]);
      if IsSeparator(s[0]) then [""] + rest
      else [[s[0]] + rest[0]] + rest[1..]
  }

  /** `.map(k => k.trim()).filter(k => k.length > 0)` over the pieces. */
  function TrimmedNonEmpty(pieces: seq<string>): (r: seq<string>)
    requires AllSeparatorFree(pieces)
    ensures |r| <= |pieces|
    ensures AllKeys(r)
  {
    if pieces == [] then []
    else
      var t := Trim(pieces[0]);
      if t == "" then TrimmedNonEmpty(pieces[1..]) else [t] + TrimmedNonEmpty(pieces[1..])
  }

  /** `splitKeys`: the keys a stored key text holds, in the order they appear. */
  function SplitKeys(s: string): (r: seq<string>)
    ensures AllKeys(r)
  {
    if s == "" then [] else TrimmedNonEmpty(Pieces(s))
  }

  /** `keys.join('\n')`. */
  function Join(ks: seq<string>): (r: string)
    ensures |ks| == 0 ==> r == ""
    ensures |ks| >= 1 ==> |r| >= |ks[0]| + |ks| - 1 && r[..|ks[0]|] == ks[0]
    ensures |ks| >= 2 ==> r[|ks[0]|] == '\n'
    ensures AllSeparatorFree(ks) ==> forall i :: 0 <= i < |r| && IsSeparator(r[i]) ==> r[i] == '\n'
  {
    if |ks| == 0 then ""
    else if |ks| == 1 then ks[0]
    else
      assert AllSeparatorFree(ks) ==> AllSeparatorFree(ks[1..]) && SeparatorFree(ks[0]);
      ks[0] + "\n" + Join(ks[1..])
  }

  lemma {:induction false} PiecesOfSeparatorFree(a: string)
    requires SeparatorFree(a)
    ensures Pieces(a) == [a]
  {
    if a != "" {
      PiecesOfSeparatorFree(a[1..]);
      assert [a[0]] + a[1..] == a;
    }
  }

  lemma {:induction false} PiecesAfterSeparator(a: string, b: string)
    requires SeparatorFree(a)
    ensures Pieces(a + "\n" + b) == [a] + Pieces(b)
  {
    if a == "" {
      assert a + "\n" + b == "\n" + b;
      assert ("\n" + b)[1..] == b;
    } else {
      PiecesAfterSeparator(a[1..], b);
      assert (a + "\n" + b)[1..] == a[1..] + "\n" + b;
      assert [a[0]] + a[1..] == a;
    }
  }

  /** One step of the split: a leading separator opens a new piece, any other character joins the first piece. */
  lemma PiecesCons(x: char, s: string)
    ensures Pieces([x] + s) ==
      if IsSeparator(x) then [""] + Pieces(s) else [[x] + Pieces(s)[0]] + Pieces(s)[1..]
  {
    assert ([x] + s)[1..] == s;
  }

  /** Cutting the text at any separator splits its pieces there: the pieces before it, then the pieces after it. */
  lemma {:induction false} PiecesAtSeparator(a: string, c: char, b: string)
    requires IsSeparator(c)
    ensures Pieces(a + [c] + b) == Pieces(a) + Pieces(b)
  {
    if a == "" {
      assert a + [c] + b == [c] + b;
      PiecesCons(c, b);
    } else {
      var t := a[1..];
      assert a == [a[0]] + t;
      assert a + [c] + b == [a[0]] + (t + [c] + b);
      PiecesCons(a[0], t);
      PiecesCons(a[0], t + [c] + b);
      PiecesAtSeparator(t, c, b);
      PiecesStepAppend(a[0], Pieces(t), Pieces(b));
    }
  }

  /** The split step commutes with appending the pieces that follow. */
  lemma PiecesStepAppend(x: char, pa: seq<string>, pb: seq<string>)
    requires |pa| >= 1
    ensures (if IsSeparator(x) then [""] + (pa + pb) else [[x] + (pa + pb)[0]] + (pa + pb)[1..]) ==
            (if IsSeparator(x) then [""] + pa else [[x] + pa[0]] + pa[1..]) + pb
  {
    if !IsSeparator(x) {
      assert (pa + pb)[1..] == pa[1..] + pb;
    }
  }


  lemma {:induction false} PiecesOfJoin(ks: seq<string>)
    requires |ks| >= 1
    requires AllSeparatorFree(ks)
    ensures Pieces(Join(ks)) == ks
  {
    if |ks| == 1 {
      PiecesOfSeparatorFree(ks[0]);
    } else {
      assert SeparatorFree(ks[0]);
      PiecesOfJoin(ks[1..]);
      PiecesAfterSeparator(ks[0], Join(ks[1..]));
      Seqs.HeadTail(ks);
    }
  }

  lemma KeysAreSeparatorFree(ks: seq<string>)
    requires AllKeys(ks)
    ensures AllSeparatorFree(ks)
  {
  }

  lemma {:induction false} TrimmedNonEmptyOfKeys(ks: seq<string>)
    requires AllKeys(ks)
    ensures AllSeparatorFree(ks)
    ensures TrimmedNonEmpty(ks) == ks
  {
    KeysAreSeparatorFree(ks);
    if ks != [] {
      var rest := ks[1..];
      assert AllKeys(rest);
      TrimmedNonEmptyOfKeys(rest);
      assert IsKey(ks[0]);
      assert Trim(ks[0]) == ks[0];
      Seqs.HeadTail(ks);
    }
  }

  /** Trimming and dropping blanks works piece by piece, keeping the order. */
  lemma {:induction false} TrimmedNonEmptyAppend(p: seq<string>, q: seq<string>)
    requires AllSeparatorFree(p) && AllSeparatorFree(q)
    ensures AllSeparatorFree(p + q)
    ensures TrimmedNonEmpty(p + q) == TrimmedNonEmpty(p) + TrimmedNonEmpty(q)
  {
    assert forall i :: 0 <= i < |p + q| ==> (p + q)[i] == if i < |p| then p[i] else q[i - |p|];
    if p == [] {
      assert p + q == q;
    } else {
      var pq := p + q;
      assert pq[0] == p[0];
      assert pq[1..] == p[1..] + q;
      TrimmedNonEmptyAppend(p[1..], q);
      var t := Trim(p[0]);
      var tp := TrimmedNonEmpty(p[1..]);
      var tq := TrimmedNonEmpty(q);
      if t != "" {
        assert [t] + (tp + tq) == ([t] + tp) + tq;
      }
    }
  }

  /** `splitKeys` is split, trim, drop blanks, on every text: the empty text has one blank piece. */
  lemma SplitKeysIsPipeline(s: string)
    ensures SplitKeys(s) == TrimmedNonEmpty(Pieces(s))
  {
    if s == "" {
      var ps := Pieces(s);
      assert ps == [""];
      assert Trim(ps[0]) == "";
      assert ps[1..] == [];
    }
  }

  /** A separator ends one key and starts the next: the keys of the text are those before it followed by those after it. */
  lemma SplitKeysAtSeparator(a: string, c: char, b: string)
    requires IsSeparator(c)
    ensures SplitKeys(a + [c] + b) == SplitKeys(a) + SplitKeys(b)
  {
    PiecesAtSeparator(a, c, b);
    TrimmedNonEmptyAppend(Pieces(a), Pieces(b));
    SplitKeysIsPipeline(a);
    SplitKeysIsPipeline(b);
    SplitKeysIsPipeline(a + [c] + b);
  }

  /** A text without separators holds one key, its trimmed self, unless it is blank. */
  lemma SplitKeysOfSeparatorFree(a: string)
    requires SeparatorFree(a)
    ensures SplitKeys(a) == if Trim(a) == "" then [] else [Trim(a)]
  {
    PiecesOfSeparatorFree(a);
    SplitKeysIsPipeline(a);
    assert [a][1..] == [];
  }

  /**
   * Writing a list of keys back as text and splitting it again gives the same
   * list: what removal, restore and the keys editor rely on.
   */
  lemma {:induction false} SplitJoin(ks: seq<string>)
    requires AllKeys(ks)
    ensures SplitKeys(Join(ks)) == ks
  {
    if ks != [] {
      assert Join(ks) != "" by {
        assert IsKey(ks[0]);
        if |ks| > 1 {
          assert |Join(ks)| >= |ks[0]| + 1;
        }
      }
      TrimmedNonEmptyOfKeys(ks);
      PiecesOfJoin(ks);
    }
  }

  /** Normalising a key text (split, then join) is idempotent. */
  lemma SplitJoinSplit(s: string)
    ensures SplitKeys(Join(SplitKeys(s))) == SplitKeys(s)
  {
    SplitJoin(SplitKeys(s));
  }

  /**
   * The keys editor compares the normalised texts; this comparison is the same
   * as comparing the key lists.
   */
  lemma NormalisedTextsAgree(a: string, b: string)
    ensures Join(SplitKeys(a)) == Join(SplitKeys(b)) <==> SplitKeys(a) == SplitKeys(b)
  {
    SplitJoinSplit(a);
    SplitJoinSplit(b);
  }
}
