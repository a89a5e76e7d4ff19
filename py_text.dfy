/** The few Python string and `pathlib` operations the pipeline relies on:
    substring test (`t in s`), `str.lower()`, and the `suffix`/`stem` of a
    file name, with the two helpers they are built on: a search for the last
    occurrence of a character, and a test for a tail (the `*.json` pattern). */
module PyText {

  import opened Wrappers

  /** `t in s` for strings: `t` occurs somewhere in `s`. */
  predicate Contains(s: string, t: string)
    ensures Contains(s, t) ==> |t| <= |s|
    ensures t == [] ==> Contains(s, t)
    decreases |s|
  {
    |t| <= |s| && (s[..|t|] == t || Contains(s[1..], t))
  }

  /** A witness position makes `t in s` true. */
  lemma {:induction false} ContainsAt(s: string, t: string, i: nat)
    requires i + |t| <= |s| && s[i..i + |t|] == t
    ensures Contains(s, t)
    decreases i
  {
    if i > 0 {
      assert s[1..][i - 1..i - 1 + |t|] == s[i..i + |t|];
      ContainsAt(s[1..], t, i - 1);
    } else {
      assert s[..|t|] == s[i..i + |t|];
    }
  }

  /** Every occurrence of `t` in `s` sits at some position of `s`. */
  lemma {:induction false} ContainsWitness(s: string, t: string) returns (i: nat)
    requires Contains(s, t)
    ensures i + |t| <= |s| && s[i..i + |t|] == t
    decreases |s|
  {
    if s[..|t|] == t {
      i := 0;
    } else {
      var j := ContainsWitness(s[1..], t);
      assert s[1..][j..j + |t|] == s[j + 1..j + 1 + |t|];
      i := j + 1;
    }
  }

  /** A string holding `-|-` holds `|`. */
  lemma {:induction false} TablePatternHasPipe(s: string)
    ensures Contains(s, "-|-") ==> Contains(s, "|")
  {
    if Contains(s, "-|-") {
      var i := ContainsWitness(s, "-|-");
      assert s[i + 1] == s[i..i + 3][1] == '|';
      assert s[i + 1..i + 2] == "|";
      ContainsAt(s, "|", i + 1);
    }
  }

  function LowerChar(c: char): char {
    if 'A' <= c <= 'Z' then (c as int - 'A' as int + 'a' as int) as char else c
  }

  /** `str.lower()` restricted to ASCII letters; every other character is
      kept (see README for why this is exact where the program uses it). */
  function Lower(s: string): (r: string)
    ensures |r| == |s|
    ensures forall i :: 0 <= i < |r| ==> !('A' <= r[i] <= 'Z')
    ensures forall i :: 0 <= i < |s| && !('A' <= s[i] <= 'Z') ==> r[i] == s[i]
    ensures forall i :: 0 <= i < |s| ==> r[i] == s[i] || r[i] as int == s[i] as int + 32
  {
    seq(|s|, i requires 0 <= i < |s| => LowerChar(s[i]))
  }

  /** `s` ends in `t`: the `*` of a pattern `*t` matches what precedes it. */
  predicate EndsWith(s: string, t: string) {
    |t| <= |s| && s[|s| - |t|..] == t
  }

  /** The index of the last `c` in `s`, or -1: the search for the last dot
      that `PurePath.suffix` and `PurePath.stem` make. */
  function RFind(s: string, c: char): (r: int)
    ensures -1 <= r < |s|
    ensures r >= 0 ==> s[r] == c
  {
    if s == [] then -1
    else if s[|s| - 1] == c then |s| - 1
    else RFind(s[..|s| - 1], c)
  }

  /** No `c` follows the position `RFind` reports. */
  lemma {:induction false} RFindIsLast(s: string, c: char)
    ensures forall k :: RFind(s, c) < k < |s| ==> s[k] != c
    decreases |s|
  {
    if s != [] && s[|s| - 1] != c {
      RFindIsLast(s[..|s| - 1], c);
    }
  }

  /** The position of the dot that starts `PurePath.suffix`, when there is one:
      the last dot, if it is neither the first nor the last character. */
  function SuffixDot(name: string): (r: Option<nat>)
    ensures r.Some? ==> 0 < r.value < |name| - 1 && name[r.value] == '.'
  {
    var i := RFind(name, '.');
    if 0 < i < |name| - 1 then Some(i) else None
  }

  /** `PurePath(name).suffix`: from the last dot on, or empty. */
  function Suffix(name: string): (r: string)
    ensures r == "" || (r[0] == '.' && 2 <= |r| < |name|)
    ensures EndsWith(name, r)
  {
    match SuffixDot(name)
    case Some(i) => name[i..]
    case None => ""
  }

  /** `PurePath(name).stem`: the name without its suffix. */
  function Stem(name: string): (r: string)
    ensures r + Suffix(name) == name
  {
    match SuffixDot(name)
    case Some(i) => name[..i]
    case None => name
  }

  /** A suffix holds no dot after its first character, and a name with a
      suffix has a non-empty stem. */
  lemma StemSuffixSplit(name: string)
    ensures Suffix(name) != "" ==> Stem(name) != ""
    ensures forall k :: 0 < k < |Suffix(name)| ==> Suffix(name)[k] != '.'
  {
    match SuffixDot(name)
    case Some(i) =>
      RFindIsLast(name, '.');
    case None =>
  }

  /** A name made of a non-empty stem and an extension (a dot and at least one
      further character, none of them a dot) has exactly that stem and suffix. */
  lemma NameParts(stem: string, ext: string)
    requires stem != "" && |ext| >= 2 && ext[0] == '.'
    requires forall k :: 0 < k < |ext| ==> ext[k] != '.'
    ensures Suffix(stem + ext) == ext && Stem(stem + ext) == stem
  {
    var name := stem + ext;
    var i := RFind(name, '.');
    RFindIsLast(name, '.');
    assert name[|stem|] == '.';
    assert forall k :: |stem| < k < |name| ==> name[k] == ext[k - |stem|];
    assert i == |stem|;
    assert name[i..] == ext && name[..i] == stem;
  }
}
