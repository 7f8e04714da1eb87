/** The Python string operations the scraper applies to page text: `strip()`,
    `lower()`, `split()` on whitespace, `split(sep)`, `sep.join(...)`, and the
    `sanify` helper built from them. Strings are sequences of characters. */
module Text {
  import opened Common

  /** Python 2 `unicode.isspace`: the characters that `split()` and `strip()` treat
      as whitespace (page text from the parser is unicode). */
  predicate IsSpace(c: char)
  {
    var n := c as int;
    (9 <= n <= 13) || (28 <= n <= 32) || n == 0x85 || n == 0xA0 || n == 0x1680 || n == 0x180E
    || (0x2000 <= n <= 0x200A) || n == 0x2028 || n == 0x2029 || n == 0x202F || n == 0x205F
    || n == 0x3000
  }

  predicate IsUpper(c: char) { 'A' <= c <= 'Z' }

  predicate NoSpace(s: string) { forall c :: c in s ==> !IsSpace(c) }

  predicate NoUpper(s: string) { forall c :: c in s ==> !IsUpper(c) }

  /** Every character of `w` occurs in `s`. */
  predicate DrawnFrom(w: string, s: string) { forall c :: c in w ==> c in s }

  function LowerChar(c: char): char
  {
    if IsUpper(c) then (c as int + 32) as char else c
  }

  /** `s.lower()`, for the letters A to Z: each capital becomes its small letter,
      and every other character is kept. */
  function Lower(s: string): (r: string)
    ensures |r| == |s| && NoUpper(r)
    ensures forall i :: 0 <= i < |s| && !IsUpper(s[i]) ==> r[i] == s[i]
    ensures forall i :: 0 <= i < |s| && IsUpper(s[i]) ==>
              'a' <= r[i] <= 'z' && r[i] as int - 'a' as int == s[i] as int - 'A' as int
  {
    seq(|s|, i requires 0 <= i < |s| => LowerChar(s[i]))
  }

  /** `s.lstrip()`. */
  function TrimLeft(s: string): string
  {
    if s != [] && IsSpace(s[0]) then TrimLeft(s[1..]) else s
  }

  /** `s.rstrip()`. */
  function TrimRight(s: string): string
  {
    if s != [] && IsSpace(s[|s| - 1]) then TrimRight(s[..|s| - 1]) else s
  }

  /** `lstrip()` drops the leading whitespace and nothing else. */
  lemma {:induction false} TrimLeftDrops(s: string)
    ensures var r := TrimLeft(s);
            && |r| <= |s| && r == s[|s| - |r|..]
            && (forall k :: 0 <= k < |s| - |r| ==> IsSpace(s[k]))
            && (r != [] ==> !IsSpace(r[0]))
  {
    if s != [] && IsSpace(s[0]) {
      var rest := s[1..];
      TrimLeftDrops(rest);
      var r := TrimLeft(rest);
      assert TrimLeft(s) == r;
      assert rest[|rest| - |r|..] == s[|s| - |r|..];
      forall k | 0 <= k < |s| - |r| ensures IsSpace(s[k]) {
        if k > 0 {
          assert s[k] == rest[k - 1];
        }
      }
    }
  }

  /** `rstrip()` drops the trailing whitespace and nothing else. */
  lemma {:induction false} TrimRightDrops(s: string)
    ensures var r := TrimRight(s);
            && |r| <= |s| && r == s[..|r|]
            && (forall k :: |r| <= k < |s| ==> IsSpace(s[k]))
            && (r != [] ==> !IsSpace(r[|r| - 1]))
  {
    if s != [] && IsSpace(s[|s| - 1]) {
      var front := s[..|s| - 1];
      TrimRightDrops(front);
      var r := TrimRight(front);
      assert TrimRight(s) == r;
      assert front[..|r|] == s[..|r|];
      forall k | |r| <= k < |s| ensures IsSpace(s[k]) {
        if k < |s| - 1 {
          assert s[k] == front[k];
        }
      }
    }
  }

  /** `s.strip()`: the text of `s` between its leading and its trailing whitespace. */
  function Strip(s: string): string
  {
    TrimRight(TrimLeft(s))
  }

  /** What `strip()` keeps: the part of `s` between leading and trailing runs of
      whitespace, itself neither starting nor ending with whitespace. */
  lemma StripFramed(s: string)
    ensures var r := Strip(s);
            && (r != [] ==> !IsSpace(r[0]) && !IsSpace(r[|r| - 1]))
            && exists i :: Framed(s, r, i)
  {
    var i := StripStart(s);
  }

  /** Where the text `strip()` keeps starts in `s`. */
  lemma StripStart(s: string) returns (i: int)
    ensures var r := Strip(s);
            && (r != [] ==> !IsSpace(r[0]) && !IsSpace(r[|r| - 1]))
            && Framed(s, r, i)
  {
    var left := TrimLeft(s);
    var r := TrimRight(left);
    TrimLeftDrops(s);
    TrimRightDrops(left);
    i := |s| - |left|;
    assert s[i..i + |r|] == r;
  }

  /** `r` is the part of `s` from index `i` on, with only whitespace around it. */
  predicate Framed(s: string, r: string, i: int)
  {
    && 0 <= i <= |s| - |r| && s[i..i + |r|] == r
    && (forall k :: 0 <= k < i ==> IsSpace(s[k]))
    && (forall k :: i + |r| <= k < |s| ==> IsSpace(s[k]))
  }

  /** Length of the run of non-whitespace characters that starts `s`. */
  function WordLength(s: string): (n: nat)
    ensures n <= |s|
    ensures forall k :: 0 <= k < n ==> !IsSpace(s[k])
    ensures n == |s| || IsSpace(s[n])
  {
    if s == [] || IsSpace(s[0]) then 0 else 1 + WordLength(s[1..])
  }

  /** `s.split()`: the maximal runs of non-whitespace characters, in order. */
  function Words(s: string): (ws: seq<string>)
    ensures forall i :: 0 <= i < |ws| ==> ws[i] != [] && NoSpace(ws[i]) && DrawnFrom(ws[i], s)
    decreases |s|
  {
    if s == [] then []
    else if IsSpace(s[0]) then Words(s[1..])
    else
      var n := WordLength(s);
      assert forall c :: c in s[..n] ==> !IsSpace(c);
      [s[..n]] + Words(s[n..])
  }

  /** Every character of `g` is whitespace. */
  predicate AllSpace(g: string) { forall c :: c in g ==> IsSpace(c) }

  /** The words `ws` with the runs `gaps` around and between them:
      `gaps[0] + ws[0] + gaps[1] + ... + ws[n-1] + gaps[n]`. */
  function Weave(gaps: seq<string>, ws: seq<string>): string
    requires |gaps| == |ws| + 1
    decreases |ws|
  {
    if ws == [] then gaps[0] else gaps[0] + ws[0] + Weave(gaps[1..], ws[1..])
  }

  /** `s` is the words `ws` laid out with whitespace runs between them, each run
      between two words being non-empty. */
  ghost predicate Separated(s: string, ws: seq<string>, gaps: seq<string>)
  {
    && |gaps| == |ws| + 1
    && (forall i :: 0 <= i < |gaps| ==> AllSpace(gaps[i]))
    && (forall i :: 0 < i < |ws| ==> gaps[i] != [])
    && s == Weave(gaps, ws)
  }

  lemma WeaveCons(c: char, gaps: seq<string>, ws: seq<string>)
    requires |gaps| == |ws| + 1
    ensures Weave([[c] + gaps[0]] + gaps[1..], ws) == [c] + Weave(gaps, ws)
  {
    var g2 := [[c] + gaps[0]] + gaps[1..];
    assert g2[1..] == gaps[1..];
  }

  /** A layout that starts with a word and no run starts with a non-whitespace
      character. */
  lemma WeaveHead(gaps: seq<string>, ws: seq<string>)
    requires |gaps| == |ws| + 1 && ws != [] && ws[0] != [] && NoSpace(ws[0]) && gaps[0] == []
    ensures Weave(gaps, ws) != [] && !IsSpace(Weave(gaps, ws)[0])
  {
    assert Weave(gaps, ws)[0] == ws[0][0];
    assert ws[0][0] in ws[0];
  }

  /** A whitespace character in front of a layout joins its first run. */
  lemma SeparatedSpace(c: char, rest: string, ws: seq<string>, gaps: seq<string>)
    requires IsSpace(c) && Separated(rest, ws, gaps)
    ensures Separated([c] + rest, ws, [[c] + gaps[0]] + gaps[1..])
  {
    var g2 := [[c] + gaps[0]] + gaps[1..];
    WeaveCons(c, gaps, ws);
    assert forall i :: 0 < i < |g2| ==> g2[i] == gaps[i];
  }

  /** A word in front of a layout that is empty or starts with whitespace becomes
      its first word, after an empty run. */
  lemma SeparatedWord(w: string, rest: string, ws: seq<string>, gaps: seq<string>)
    requires w != [] && NoSpace(w) && (rest == [] || IsSpace(rest[0]))
    requires forall i :: 0 <= i < |ws| ==> ws[i] != [] && NoSpace(ws[i])
    requires Separated(rest, ws, gaps)
    ensures Separated(w + rest, [w] + ws, [[]] + gaps)
  {
    var g2 := [[]] + gaps;
    if ws != [] && gaps[0] == [] {
      WeaveHead(gaps, ws);
    }
    assert g2[1..] == gaps;
    assert ([w] + ws)[1..] == ws;
  }

  /** `split()` gives the text's words exactly: the text is its words with runs of
      whitespace around them and a non-empty run between any two. */
  lemma WordsSeparated(s: string)
    ensures exists gaps :: Separated(s, Words(s), gaps)
  {
    var gaps := WordGaps(s);
  }

  /** The runs of whitespace around and between the words of `s`. */
  lemma {:induction false} WordGaps(s: string) returns (gaps: seq<string>)
    ensures Separated(s, Words(s), gaps)
    decreases |s|
  {
    if s == [] {
      assert Words(s) == [];
      gaps := [[]];
    } else if IsSpace(s[0]) {
      var rest := s[1..];
      var g := WordGaps(rest);
      SeparatedSpace(s[0], rest, Words(rest), g);
      assert s == [s[0]] + rest;
      assert Words(s) == Words(rest);
      gaps := [[s[0]] + g[0]] + g[1..];
    } else {
      var n := WordLength(s);
      var rest := s[n..];
      var g := WordGaps(rest);
      assert NoSpace(s[..n]) by {
        assert forall c :: c in s[..n] ==> !IsSpace(c);
      }
      SeparatedWord(s[..n], rest, Words(rest), g);
      assert s == s[..n] + rest;
      assert Words(s) == [s[..n]] + Words(rest);
      gaps := [[]] + g;
    }
  }

  /** `sep.join(ws)`. */
  function Join(ws: seq<string>, sep: string): string
  {
    if ws == [] then []
    else if |ws| == 1 then ws[0]
    else ws[0] + sep + Join(ws[1..], sep)
  }

  lemma {:induction false} JoinKeepsCase(ws: seq<string>, sep: string)
    requires NoSpace(sep) && NoUpper(sep)
    requires forall i :: 0 <= i < |ws| ==> NoSpace(ws[i]) && NoUpper(ws[i])
    ensures NoSpace(Join(ws, sep)) && NoUpper(Join(ws, sep))
  {
    if |ws| > 1 {
      JoinKeepsCase(ws[1..], sep);
    }
  }

  /** `sanify(name)` (scraper.py:36-37): the lower-cased words of `name` joined by
      hyphens. The result holds no whitespace and no capital letter. */
  function Sanify(name: string): (r: string)
    ensures NoSpace(r) && NoUpper(r)
  {
    var lowered := Lower(name);
    var ws := Words(lowered);
    assert forall i :: 0 <= i < |ws| ==> NoUpper(ws[i]) by {
      forall i | 0 <= i < |ws| ensures NoUpper(ws[i]) {
        assert DrawnFrom(ws[i], lowered);
      }
    }
    JoinKeepsCase(ws, "-");
    Join(ws, "-")
  }

  lemma LowerOfLowercase(s: string)
    requires NoUpper(s)
    ensures Lower(s) == s
  {
    assert forall i :: 0 <= i < |s| ==> !IsUpper(s[i]);
  }

  /** A word with no whitespace splits into itself (or into nothing, when empty). */
  lemma WordsOfWord(s: string)
    requires NoSpace(s)
    ensures Words(s) == if s == [] then [] else [s]
  {
    if s != [] {
      assert !IsSpace(s[0]);
      var n := WordLength(s);
      assert n == |s| && s[..n] == s && s[n..] == [];
    }
  }

  /** Applying `sanify` twice gives what applying it once gives. */
  lemma SanifyIdempotent(name: string)
    ensures Sanify(Sanify(name)) == Sanify(name)
  {
    var r := Sanify(name);
    LowerOfLowercase(r);
    WordsOfWord(r);
  }

  /** `sep` occurs in `s` starting at index `i`. */
  predicate OccursAt(s: string, sep: string, i: int)
  {
    0 <= i && i + |sep| <= |s| && s[i..i + |sep|] == sep
  }

  ghost predicate Contains(s: string, sep: string)
  {
    exists i :: OccursAt(s, sep, i)
  }

  lemma OccursShift(s: string, sep: string, i: nat)
    requires s != []
    ensures OccursAt(s[1..], sep, i) <==> OccursAt(s, sep, i + 1)
  {
    if 0 <= i && i + |sep| <= |s| - 1 {
      assert s[1..][i..i + |sep|] == s[i + 1..i + 1 + |sep|];
    }
  }

  /** `r` is where `sep` first occurs in `s`, or `None` when it does not occur. */
  ghost predicate FirstOccurrence(s: string, sep: string, r: Option<nat>)
  {
    && (r.Some? ==> OccursAt(s, sep, r.value) && forall j :: 0 <= j < r.value ==> !OccursAt(s, sep, j))
    && (r.None? ==> !Contains(s, sep))
  }

  /** The first occurrence in `s`, when `s` does not start with `sep`, is one
      past the first occurrence in `s[1..]`. */
  lemma FindStep(s: string, sep: string, rest: Option<nat>)
    requires |sep| <= |s| && s[..|sep|] != sep
    requires FirstOccurrence(s[1..], sep, rest)
    ensures FirstOccurrence(s, sep, match rest case None => None case Some(i) => Some(i + 1))
  {
    assert !OccursAt(s, sep, 0);
    forall j: nat ensures OccursAt(s[1..], sep, j) <==> OccursAt(s, sep, j + 1) {
      OccursShift(s, sep, j);
    }
    if rest.None? {
      forall j | 0 < j ensures !OccursAt(s, sep, j) {
        OccursShift(s, sep, j - 1);
      }
    } else {
      forall j | 0 <= j < rest.value + 1 ensures !OccursAt(s, sep, j) {
        if j > 0 {
          assert !OccursAt(s[1..], sep, j - 1);
        }
      }
    }
  }

  /** `s.find(sep)`: the first index at which `sep` occurs, if any. */
  function Find(s: string, sep: string): (r: Option<nat>)
    ensures r.Some? ==> OccursAt(s, sep, r.value)
                        && forall j :: 0 <= j < r.value ==> !OccursAt(s, sep, j)
    ensures r.None? ==> !Contains(s, sep)
    decreases |s|
  {
    if |s| < |sep| then
      assert forall j :: !OccursAt(s, sep, j);
      None
    else if s[..|sep|] == sep then Some(0)
    else
      var rest := Find(s[1..], sep);
      FindStep(s, sep, rest);
      match rest
      case None => None
      case Some(i) => Some(i + 1)
  }

  lemma OccursInPrefix(s: string, sep: string, n: nat, j: int)
    requires n <= |s| && OccursAt(s[..n], sep, j)
    ensures OccursAt(s, sep, j)
  {
    assert s[..n][j..j + |sep|] == s[j..j + |sep|];
  }

  /** `s.split(sep)` for a non-empty separator: the fields between the
      occurrences of `sep`, found left to right without overlap. */
  function Split(s: string, sep: string): (fields: seq<string>)
    requires sep != []
    ensures |fields| > 0
    decreases |s|
  {
    match Find(s, sep)
    case None => [s]
    case Some(i) => [s[..i]] + Split(s[i + |sep|..], sep)
  }

  /** No field of `split(sep)` holds the separator. */
  lemma {:induction false} SplitFieldsFree(s: string, sep: string)
    requires sep != []
    ensures forall i :: 0 <= i < |Split(s, sep)| ==> !Contains(Split(s, sep)[i], sep)
    decreases |s|
  {
    match Find(s, sep)
    case None =>
    case Some(i) =>
      var rest := s[i + |sep|..];
      SplitFieldsFree(rest, sep);
      forall j | OccursAt(s[..i], sep, j) ensures false {
        OccursInPrefix(s, sep, i, j);
      }
      SplitAtFirst(s, sep, i);
  }

  /** Splitting and joining with the same separator gives the text back. */
  lemma {:induction false} SplitJoin(s: string, sep: string)
    requires sep != []
    ensures Join(Split(s, sep), sep) == s
    decreases |s|
  {
    match Find(s, sep)
    case None =>
    case Some(i) =>
      var rest := s[i + |sep|..];
      SplitJoin(rest, sep);
      SplitAtFirst(s, sep, i);
      JoinCons(s[..i], Split(rest, sep), sep);
      assert s[i..i + |sep|] == sep;
      ThreeCuts(s, i, i + |sep|);
  }

  /** Cutting `s` at `a` and `b` and gluing the pieces back gives `s`. */
  lemma ThreeCuts(s: string, a: nat, b: nat)
    requires a <= b <= |s|
    ensures s == s[..a] + s[a..b] + s[b..]
  {
    assert s[..b] == s[..a] + s[a..b];
  }

  /** Joining a field in front of non-empty fields puts `sep` between them. */
  lemma JoinCons(w: string, ws: seq<string>, sep: string)
    requires ws != []
    ensures Join([w] + ws, sep) == w + sep + Join(ws, sep)
  {
    var all := [w] + ws;
    assert all[0] == w && all[1..] == ws;
  }

  /** `s.split(sep)[-1]`. */
  function LastField(s: string, sep: string): string
    requires sep != []
  {
    var fields := Split(s, sep);
    fields[|fields| - 1]
  }

  /** After the first separator, the last field is the last field of the rest of
      the text. */
  lemma LastFieldShift(s: string, sep: string, i: nat)
    requires sep != [] && Find(s, sep) == Some(i)
    ensures LastField(s, sep) == LastField(s[i + |sep|..], sep)
  {
    var fields := Split(s[i + |sep|..], sep);
    SplitAtFirst(s, sep, i);
    var all := [s[..i]] + fields;
    assert all[|all| - 1] == fields[|fields| - 1];
  }

  /** Up to the first separator, then the fields of the rest. */
  lemma SplitAtFirst(s: string, sep: string, i: nat)
    requires sep != [] && Find(s, sep) == Some(i)
    ensures Split(s, sep) == [s[..i]] + Split(s[i + |sep|..], sep)
  {
  }

  /** `f` is the end of `s` without a separator, and either all of `s` or what
      follows an occurrence of `sep` in it. */
  ghost predicate EndField(s: string, sep: string, f: string)
  {
    && |f| <= |s| && s[|s| - |f|..] == f && !Contains(f, sep)
    && ((f == s && !Contains(s, sep))
        || (|f| + |sep| <= |s| && s[|s| - |f| - |sep|..|s| - |f|] == sep))
  }

  /** An end field of the text after an occurrence of `sep` is an end field of the
      whole text. */
  lemma EndFieldAfterSep(s: string, sep: string, i: nat, f: string)
    requires OccursAt(s, sep, i) && EndField(s[i + |sep|..], sep, f)
    ensures EndField(s, sep, f)
  {
    var rest := s[i + |sep|..];
    var n := |s| - |f|;
    assert s[n..] == rest[|rest| - |f|..];
    if f == rest {
      assert |f| == |s| - (i + |sep|);
      assert n - |sep| == i;
    } else {
      FollowsInSuffix(s, i + |sep|, f, sep);
    }
    assert |f| + |sep| <= |s| && s[n - |sep|..n] == sep;
  }

  /** The last field is the end of `s` and holds no separator. It is either all of
      `s`, which then holds no separator, or what follows an occurrence of `sep`. */
  lemma {:induction false} LastFieldIsSuffix(s: string, sep: string)
    requires sep != []
    ensures EndField(s, sep, LastField(s, sep))
    decreases |s|
  {
    match Find(s, sep)
    case None =>
      assert LastField(s, sep) == s;
      assert EndField(s, sep, s);
    case Some(i) =>
      var rest := s[i + |sep|..];
      LastFieldShift(s, sep, i);
      LastFieldIsSuffix(rest, sep);
      EndFieldAfterSep(s, sep, i, LastField(rest, sep));
  }

  /** No two occurrences of `sep` in `s` overlap. */
  ghost predicate NoOverlap(s: string, sep: string)
  {
    forall j, k :: OccursAt(s, sep, j) && OccursAt(s, sep, k) && j < k ==> j + |sep| <= k
  }

  /** An occurrence from index `k` on is an occurrence in `s[k..]`, and back. */
  lemma OccursInSuffix(s: string, sep: string, k: nat, j: int)
    requires k <= |s| && 0 <= j
    ensures OccursAt(s[k..], sep, j) <==> OccursAt(s, sep, j + k)
  {
    if 0 <= j && j + |sep| <= |s| - k {
      assert s[k..][j..j + |sep|] == s[j + k..j + k + |sep|];
    }
  }

  /** Without overlapping occurrences, the last field follows every occurrence of
      `sep`: it is what comes after the last one. */
  lemma {:induction false} LastFieldAfterEveryOccurrence(s: string, sep: string)
    requires sep != [] && NoOverlap(s, sep)
    ensures forall j :: OccursAt(s, sep, j) ==> j + |sep| <= |s| - |LastField(s, sep)|
    decreases |s|
  {
    match Find(s, sep)
    case None =>
      assert !Contains(s, sep);
    case Some(i) =>
      var k := i + |sep|;
      var rest := s[k..];
      LastFieldShift(s, sep, i);
      LastFieldIsSuffix(rest, sep);
      var f := LastField(rest, sep);
      NoOverlapSuffix(s, sep, k);
      LastFieldAfterEveryOccurrence(rest, sep);
      OccurrencesBefore(s, sep, i, k, |rest| - |f|);
  }

  /** The text after an index has no overlapping occurrences when `s` has none. */
  lemma NoOverlapSuffix(s: string, sep: string, k: nat)
    requires k <= |s| && NoOverlap(s, sep)
    ensures NoOverlap(s[k..], sep)
  {
    forall a, b | OccursAt(s[k..], sep, a) && OccursAt(s[k..], sep, b) && a < b
      ensures a + |sep| <= b
    {
      OccursInSuffix(s, sep, k, a);
      OccursInSuffix(s, sep, k, b);
    }
  }

  /** When `sep` first occurs at `i`, ending at `k`, and every occurrence in the
      text after it ends by `m`, every occurrence in `s` ends by `k + m`. */
  lemma OccurrencesBefore(s: string, sep: string, i: nat, k: nat, m: int)
    requires NoOverlap(s, sep) && OccursAt(s, sep, i) && k == i + |sep|
    requires forall j :: 0 <= j < i ==> !OccursAt(s, sep, j)
    requires 0 <= m <= |s| - k
    requires forall a :: OccursAt(s[k..], sep, a) ==> a + |sep| <= m
    ensures forall j :: OccursAt(s, sep, j) ==> j + |sep| <= k + m
  {
    forall j | OccursAt(s, sep, j) ensures j + |sep| <= k + m {
      if j > i {
        assert k <= j;
        OccursInSuffix(s, sep, k, j - k);
      }
    }
  }

  /** `sep` just before the end field `f` of a suffix of `s` is just before `f` in `s`. */
  lemma FollowsInSuffix(s: string, k: nat, f: string, sep: string)
    requires k <= |s|
    requires var rest := s[k..];
             |f| + |sep| <= |rest| && rest[|rest| - |f| - |sep|..|rest| - |f|] == sep
    ensures |f| + |sep| <= |s| && s[|s| - |f| - |sep|..|s| - |f|] == sep
  {
    var a := |s| - k - |f| - |sep|;
    assert s[k..][a..a + |sep|] == s[k + a..k + a + |sep|];
  }

  /** `len(name.split(' ')) >= 2` holds exactly when `name` contains a space. */
  lemma SplitOnSpace(name: string)
    ensures |Split(name, " ")| >= 2 <==> ' ' in name
  {
    match Find(name, " ")
    case None =>
      assert Split(name, " ") == [name];
      if ' ' in name {
        var i :| 0 <= i < |name| && name[i] == ' ';
        assert OccursAt(name, " ", i);
      }
    case Some(i) =>
      assert name[i..i + 1] == " ";
      assert name[i] == ' ';
  }

  /** A one-character separator occurs exactly where that character does. */
  lemma OccursAtChar(s: string, c: char, j: int)
    ensures OccursAt(s, [c], j) <==> 0 <= j < |s| && s[j] == c
  {
    if 0 <= j < |s| {
      assert s[j..j + 1] == [s[j]];
    }
  }

  /** Joining fields that do not hold the character `c` with `c`, and splitting
      on `c`, gives the fields back. */
  lemma {:induction false} SplitJoinChar(ws: seq<string>, c: char)
    requires ws != [] && forall i :: 0 <= i < |ws| ==> c !in ws[i]
    ensures Split(Join(ws, [c]), [c]) == ws
    decreases |ws|
  {
    var w := ws[0];
    forall j | 0 <= j < |w| ensures !OccursAt(w, [c], j) {
      OccursAtChar(w, c, j);
    }
    if |ws| == 1 {
      assert Split(w, [c]) == [w];
    } else {
      var tail := Join(ws[1..], [c]);
      var t := w + [c] + tail;
      assert Join(ws, [c]) == t;
      OccursAtChar(t, c, |w|);
      forall j | 0 <= j < |w| ensures !OccursAt(t, [c], j) {
        OccursAtChar(t, c, j);
        assert t[j] == w[j];
      }
      var i := Find(t, [c]).value;
      assert i == |w|;
      assert t[..|w|] == w && t[|w| + 1..] == tail;
      SplitJoinChar(ws[1..], c);
      assert Split(t, [c]) == [w] + ws[1..];
    }
  }

  /** What `sanify` keeps: empty exactly when the lowered text has no words, and
      otherwise, when no word holds a hyphen, its hyphen-separated fields are the
      words of the lowered text, in order. */
  lemma SanifyFields(name: string)
    ensures var ws := Words(Lower(name));
            && (Sanify(name) == [] <==> ws == [])
            && (ws != [] && (forall i :: 0 <= i < |ws| ==> '-' !in ws[i]) ==> Split(Sanify(name), "-") == ws)
  {
    var ws := Words(Lower(name));
    if ws != [] {
      assert |Join(ws, "-")| >= |ws[0]| > 0;
      if forall i :: 0 <= i < |ws| ==> '-' !in ws[i] {
        SplitJoinChar(ws, '-');
      }
    }
  }
}
