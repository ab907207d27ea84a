/** Turning a struct field name such as `firstName` into the words of a
    validation message (`First name is required`). Character classes are
    the ASCII ones: lower-case letters, upper-case letters, digits, and
    everything else. */
module FieldNames {
  import Crypto

  datatype CharClass = LowerClass | UpperClass | DigitClass | OtherClass

  predicate IsLower(c: char) {
    'a' <= c <= 'z'
  }

  predicate IsUpper(c: char) {
    'A' <= c <= 'Z'
  }

  predicate IsDigit(c: char) {
    '0' <= c <= '9'
  }

  function Class(c: char): CharClass {
    if IsLower(c) then LowerClass
    else if IsUpper(c) then UpperClass
    else if IsDigit(c) then DigitClass
    else OtherClass
  }

  /** `unicode.ToUpper` on ASCII. */
  function ToUpper(c: char): (r: char)
    ensures IsLower(c) ==> IsUpper(r) && r as int == c as int - 32
    ensures !IsLower(c) ==> r == c
  {
    if IsLower(c) then (c as int - 32) as char else c
  }

  /** `unicode.ToLower` on ASCII. */
  function ToLower(c: char): (r: char)
    ensures IsUpper(c) ==> IsLower(r) && r as int == c as int + 32
    ensures !IsUpper(c) ==> r == c
  {
    if IsUpper(c) then (c as int + 32) as char else c
  }

  /** Upper-casing never changes what a character lower-cases to. */
  lemma LowerOfUpper(c: char)
    ensures ToLower(ToUpper(c)) == ToLower(c)
  {
  }

  /** `strings.ToLower`. */
  function LowerAll(s: string): (r: string)
    ensures |r| == |s|
    ensures forall i :: 0 <= i < |s| ==> r[i] == ToLower(s[i])
  {
    if |s| == 0 then "" else LowerAll(s[..|s| - 1]) + [ToLower(s[|s| - 1])]
  }

  lemma LowerAllConcat(a: string, b: string)
    ensures LowerAll(a + b) == LowerAll(a) + LowerAll(b)
  {
  }

  /** `UcFirst`: the first character upper-cased, the rest as is. */
  function UcFirst(s: string): (r: string)
    ensures |r| == |s|
    ensures |s| > 0 ==> r[0] == ToUpper(s[0]) && r[1..] == s[1..]
  {
    if |s| == 0 then "" else [ToUpper(s[0])] + s[1..]
  }

  /** `LcFirst`: despite its name, the whole string lower-cased. */
  function LcFirst(s: string): (r: string)
    ensures r == LowerAll(s)
  {
    LowerAll(s)
  }

  /** Both case mappings keep the lower-cased text. */
  lemma CaseMappingsKeepLowered(s: string)
    ensures LowerAll(UcFirst(s)) == LowerAll(s)
    ensures LowerAll(LcFirst(s)) == LowerAll(s)
  {
    if |s| > 0 {
      LowerOfUpper(s[0]);
    }
  }

  /** `UcFirst` is idempotent and `LcFirst` is too. */
  lemma CaseMappingsIdempotent(s: string)
    ensures UcFirst(UcFirst(s)) == UcFirst(s)
    ensures LcFirst(LcFirst(s)) == LcFirst(s)
  {
  }

  // ---------------------------------------------------------------------
  // `UcFirst` on the bytes of a Go string.
  // ---------------------------------------------------------------------

  type byte = Crypto.byte

  /** The UTF-8 encoding of one character: one byte below 0x80, otherwise a
      lead byte and one to three continuation bytes. */
  function EncodeRune(c: char): (r: seq<byte>)
    ensures 1 <= |r| <= 4
    ensures |r| == 1 <==> c as int < 0x80
    ensures |r| == 1 ==> r[0] as int == c as int
    ensures |r| > 1 ==> r[0] >= 0xC0 && forall k :: 1 <= k < |r| ==> 0x80 <= r[k] < 0xC0
  {
    var cp := c as int;
    if cp < 0x80 then [cp as byte]
    else if cp < 0x800 then [(0xC0 + cp / 64) as byte, (0x80 + cp % 64) as byte]
    else if cp < 0x1_0000 then [(0xE0 + cp / 4096) as byte, (0x80 + cp / 64 % 64) as byte, (0x80 + cp % 64) as byte]
    else [(0xF0 + cp / 262144) as byte, (0x80 + cp / 4096 % 64) as byte, (0x80 + cp / 64 % 64) as byte, (0x80 + cp % 64) as byte]
  }

  /** The bytes of a Go string holding the characters `s`. */
  function EncodeString(s: string): (r: seq<byte>)
    ensures |r| >= |s|
    ensures |s| > 0 ==> |r| >= |EncodeRune(s[0])| && r[..|EncodeRune(s[0])|] == EncodeRune(s[0])
  {
    if |s| == 0 then [] else EncodeRune(s[0]) + EncodeString(s[1..])
  }

  /** `UcFirst` as written: `range` yields the first character at byte
      index 0, and the text after it is taken from byte 1 on, whatever the
      width of that character. */
  function UcFirstBytes(s: string): (r: seq<byte>)
    ensures |s| > 0 ==> |r| == |EncodeRune(ToUpper(s[0]))| + |EncodeString(s)| - 1
  {
    if |s| == 0 then [] else EncodeRune(ToUpper(s[0])) + EncodeString(s)[1..]
  }

  /** `UcFirst` as intended: the text after the first character starts
      after all of its bytes. */
  function UcFirstUtf8(s: string): (r: seq<byte>)
    ensures |s| > 0 ==> |r| >= |EncodeRune(ToUpper(s[0]))| && r[..|EncodeRune(ToUpper(s[0]))|] == EncodeRune(ToUpper(s[0]))
  {
    if |s| == 0 then [] else EncodeRune(ToUpper(s[0])) + EncodeString(s)[|EncodeRune(s[0])|..]
  }

  /** The intended `UcFirst` on bytes is the character-level `UcFirst`
      that the rest of this module uses, encoded. */
  lemma UcFirstUtf8Encodes(s: string)
    ensures UcFirstUtf8(s) == EncodeString(UcFirst(s))
  {
    if |s| > 0 {
      var e := EncodeRune(s[0]);
      assert EncodeString(s)[|e|..] == EncodeString(s[1..]);
      assert UcFirst(s) == [ToUpper(s[0])] + s[1..];
      assert UcFirst(s)[1..] == s[1..];
    }
  }

  /** On a name that starts with an ASCII character the two agree. */
  lemma UcFirstBytesAscii(s: string)
    requires |s| == 0 || s[0] as int < 0x80
    ensures UcFirstBytes(s) == UcFirstUtf8(s)
  {
  }

  /** On a name that starts with any other character, the continuation
      bytes of that character are written twice. */
  lemma UcFirstBytesRepeatsContinuation(s: string)
    requires |s| > 0 && s[0] as int >= 0x80
    ensures |UcFirstBytes(s)| == |EncodeString(UcFirst(s))| + |EncodeRune(s[0])| - 1
    ensures UcFirstBytes(s) != EncodeString(UcFirst(s))
  {
    UcFirstUtf8Encodes(s);
    assert EncodeString(s)[|EncodeRune(s[0])|..] == EncodeString(s[1..]);
  }

  /** `中` followed by `a`, bytes E4 B8 AD 61, becomes E4 B8 AD B8 AD 61:
      `中` has no upper case, so Go's `unicode.ToUpper` leaves it as it is
      too, and the two extra bytes come from `str[1:]` alone. */
  lemma UcFirstBytesExample()
    ensures EncodeString("\U{4E2D}a") == [0xE4, 0xB8, 0xAD, 0x61]
    ensures UcFirstBytes("\U{4E2D}a") == [0xE4, 0xB8, 0xAD, 0xB8, 0xAD, 0x61]
    ensures UcFirstUtf8("\U{4E2D}a") == [0xE4, 0xB8, 0xAD, 0x61]
  {
    assert EncodeRune('\U{4E2D}') == [0xE4, 0xB8, 0xAD];
    assert ToUpper('\U{4E2D}') == '\U{4E2D}';
    assert "\U{4E2D}a"[1..] == "a";
    assert EncodeString("a") == [0x61] by {
      assert "a"[1..] == "";
    }
  }

  // ---------------------------------------------------------------------
  // Runs of one class.
  // ---------------------------------------------------------------------

  /** The concatenation of a sequence of strings. */
  function Flatten(rs: seq<string>): string {
    if |rs| == 0 then "" else Flatten(rs[..|rs| - 1]) + rs[|rs| - 1]
  }

  lemma {:induction false} FlattenConcat(a: seq<string>, b: seq<string>)
    ensures Flatten(a + b) == Flatten(a) + Flatten(b)
    decreases |b|
  {
    if |b| == 0 {
      assert a + b == a;
    } else {
      var n := |b| - 1;
      assert (a + b)[..|a + b| - 1] == a + b[..n];
      assert (a + b)[|a + b| - 1] == b[n];
      FlattenConcat(a, b[..n]);
      assert Flatten(b) == Flatten(b[..n]) + b[n];
    }
  }

  function Last(s: string): char
    requires |s| > 0
  {
    s[|s| - 1]
  }

  /** Non-empty runs, each of one class, neighbours of different classes. */
  ghost predicate WellFormedRuns(rs: seq<string>) {
    && (forall i :: 0 <= i < |rs| ==> |rs[i]| > 0)
    && (forall i :: 0 <= i < |rs| ==> Uniform(rs[i]))
    && (forall i :: 0 <= i < |rs| - 1 ==> ClassChangesAfter(rs, i))
  }

  /** Run `i` and run `i + 1` start with characters of different classes. */
  ghost predicate ClassChangesAfter(rs: seq<string>, i: int)
    requires 0 <= i < |rs| - 1
  {
    |rs[i]| > 0 && |rs[i + 1]| > 0 && Class(rs[i][0]) != Class(rs[i + 1][0])
  }

  /** Every character of `g` is in the class of its first one. */
  ghost predicate Uniform(g: string) {
    forall k :: 0 <= k < |g| ==> Class(g[k]) == Class(g[0])
  }

  /** A character of another class than the last run starts a new run. */
  lemma AppendRun(prev: seq<string>, c: char)
    requires WellFormedRuns(prev)
    requires |prev| > 0 ==> Class(Last(prev[|prev| - 1])) != Class(c)
    ensures WellFormedRuns(prev + [[c]])
  {
    var r := prev + [[c]];
    assert Uniform([c]);
    forall i | 0 <= i < |r| - 1
      ensures ClassChangesAfter(r, i)
    {
      assert r[i] == prev[i];
      if i < |prev| - 1 {
        assert r[i + 1] == prev[i + 1] && ClassChangesAfter(prev, i);
      } else {
        assert Uniform(prev[i]);
      }
    }
    assert forall i :: 0 <= i < |prev| ==> r[i] == prev[i];
  }

  /** A character of the last run's class extends that run. */
  lemma ExtendRun(prev: seq<string>, c: char)
    requires WellFormedRuns(prev) && |prev| > 0
    requires Class(Last(prev[|prev| - 1])) == Class(c)
    ensures WellFormedRuns(prev[..|prev| - 1] + [prev[|prev| - 1] + [c]])
  {
    var n := |prev|;
    var g := prev[n - 1] + [c];
    var r := prev[..n - 1] + [g];
    assert Uniform(prev[n - 1]);
    assert Uniform(g) by {
      forall k | 0 <= k < |g|
        ensures Class(g[k]) == Class(g[0])
      {
        if k < |g| - 1 {
          assert g[k] == prev[n - 1][k];
        }
      }
    }
    assert forall i :: 0 <= i < n - 1 ==> r[i] == prev[i];
    assert g[0] == prev[n - 1][0];
    forall i | 0 <= i < |r| - 1
      ensures ClassChangesAfter(r, i)
    {
      assert ClassChangesAfter(prev, i);
    }
  }

  /** The first loop of `Split`: the input cut into maximal runs of one class. */
  function Runs(s: string): (r: seq<string>)
    ensures |r| == 0 <==> |s| == 0
  {
    if |s| == 0 then []
    else
      var prev := Runs(s[..|s| - 1]);
      var c := s[|s| - 1];
      if |prev| > 0 && Class(s[|s| - 2]) == Class(c) then
        prev[..|prev| - 1] + [prev[|prev| - 1] + [c]]
      else
        prev + [[c]]
  }

  /** The runs are maximal runs of one class and spell out the input. */
  lemma {:induction false} RunsWellFormed(s: string)
    ensures WellFormedRuns(Runs(s))
    ensures Flatten(Runs(s)) == s
    ensures |s| > 0 ==> Last(Runs(s)[|Runs(s)| - 1]) == s[|s| - 1]
  {
    if |s| > 0 {
      var t, c := s[..|s| - 1], s[|s| - 1];
      RunsWellFormed(t);
      assert s == t + [c];
      if |t| > 0 && Class(Last(t)) == Class(c) {
        ExtendCase(s, t, c, Runs(t));
      } else {
        AppendCase(s, t, c, Runs(t));
      }
    }
  }

  lemma ExtendCase(s: string, t: string, c: char, prev: seq<string>)
    requires s == t + [c]
    requires prev == Runs(t) && |t| > 0 && Class(Last(t)) == Class(c)
    requires WellFormedRuns(prev) && Flatten(prev) == t && Last(prev[|prev| - 1]) == Last(t)
    ensures WellFormedRuns(Runs(s))
    ensures Flatten(Runs(s)) == s
    ensures Last(Runs(s)[|Runs(s)| - 1]) == c
  {
    var n := |prev|;
    RunsSnoc(t, c);
    assert Runs(s) == prev[..n - 1] + [prev[n - 1] + [c]];
    ExtendRun(prev, c);
    ExtendFlatten(prev, c);
  }

  /** Extending the last run appends the character to the flattened runs. */
  lemma ExtendFlatten(prev: seq<string>, c: char)
    requires |prev| > 0
    ensures var r := prev[..|prev| - 1] + [prev[|prev| - 1] + [c]];
      Flatten(r) == Flatten(prev) + [c] && Last(r[|r| - 1]) == c
  {
    var n := |prev|;
    var r := prev[..n - 1] + [prev[n - 1] + [c]];
    assert r[..n - 1] == prev[..n - 1];
    assert Flatten(prev) == Flatten(prev[..n - 1]) + prev[n - 1];
  }

  lemma AppendCase(s: string, t: string, c: char, prev: seq<string>)
    requires s == t + [c]
    requires prev == Runs(t) && !(|t| > 0 && Class(Last(t)) == Class(c))
    requires WellFormedRuns(prev) && Flatten(prev) == t && (|t| > 0 ==> Last(prev[|prev| - 1]) == Last(t))
    ensures WellFormedRuns(Runs(s))
    ensures Flatten(Runs(s)) == s
    ensures Last(Runs(s)[|Runs(s)| - 1]) == c
  {
    var r := prev + [[c]];
    RunsSnoc(t, c);
    AppendRun(prev, c);
    assert r[..|r| - 1] == prev;
  }

  // ---------------------------------------------------------------------
  // Shifting an upper-case letter to the lower-case run after it.
  // ---------------------------------------------------------------------

  /** Run `j` (upper case) gives its last letter to run `j + 1` (lower case). */
  predicate Moves(rs: seq<string>, j: int)
    requires WellFormedRuns(rs)
  {
    0 <= j < |rs| - 1 && IsUpper(rs[j][0]) && IsLower(rs[j + 1][0])
  }

  /** The letter group `j` receives from group `j - 1`, if any. */
  function Lead(rs: seq<string>, j: int): string
    requires WellFormedRuns(rs) && 0 <= j <= |rs|
  {
    if j > 0 && Moves(rs, j - 1) then [Last(rs[j - 1])] else ""
  }

  /** What is left of run `j` after it gave away its last letter, if it did. */
  function Body(rs: seq<string>, j: int): string
    requires WellFormedRuns(rs) && 0 <= j < |rs|
  {
    if Moves(rs, j) then rs[j][..|rs[j]| - 1] else rs[j]
  }

  /** The groups after the shift, in closed form. */
  function Shifted(rs: seq<string>): (r: seq<string>)
    requires WellFormedRuns(rs)
    ensures |r| == |rs|
  {
    seq(|rs|, j requires 0 <= j < |rs| => Lead(rs, j) + Body(rs, j))
  }

  /** The second loop of `Split`. At step `i` group `i` is never empty: it
      is a run, possibly with a letter put in front. */
  method ShiftUppers(runs: seq<string>) returns (out: seq<string>)
    requires WellFormedRuns(runs)
    ensures out == Shifted(runs)
  {
    out := runs;
    if |out| == 0 {
      return;
    }
    var i := 0;
    while i < |out| - 1
      invariant 0 <= i < |runs| && |out| == |runs|
      invariant out[..i] == Shifted(runs)[..i]
      invariant out[i] == Lead(runs, i) + runs[i]
      invariant out[i + 1..] == runs[i + 1..]
    {
      assert |runs[i]| > 0;
      var g := out[i];
      var here, next := g, out[i + 1];
      if IsUpper(g[0]) && IsLower(out[i + 1][0]) {
        here, next := g[..|g| - 1], [Last(g)] + out[i + 1];
      }
      ShiftLoopStep(runs, out, i, here, next);
      out := out[..i] + [here, next] + out[i + 2..];
      i := i + 1;
    }
    assert out == out[..i] + [out[i]];
    assert Shifted(runs) == Shifted(runs)[..i] + [Shifted(runs)[i]];
  }

  /** One step of the shift loop on group `i`, which holds run `i` with
      the letter it may have received in front. */
  lemma ShiftStep(runs: seq<string>, i: int, g: string)
    requires WellFormedRuns(runs) && 0 <= i < |runs| - 1 && g == Lead(runs, i) + runs[i]
    ensures |g| > 0
    ensures var moves := IsUpper(g[0]) && IsLower(runs[i + 1][0]);
      && (if moves then g[..|g| - 1] else g) == Shifted(runs)[i]
      && (if moves then [Last(g)] + runs[i + 1] else runs[i + 1]) == Lead(runs, i + 1) + runs[i + 1]
  {
    MovesAsChecked(runs, i);
    assert |runs[i]| > 0;
    assert Last(g) == Last(runs[i]);
    assert Shifted(runs)[i] == Lead(runs, i) + Body(runs, i);
    if Moves(runs, i) {
      assert g[..|g| - 1] == Lead(runs, i) + runs[i][..|runs[i]| - 1];
      assert Lead(runs, i + 1) == [Last(runs[i])];
    } else {
      assert Lead(runs, i + 1) == "";
    }
  }

  /** The body of the shift loop keeps its invariant. */
  lemma ShiftLoopStep(runs: seq<string>, out: seq<string>, i: int, here: string, next: string)
    requires WellFormedRuns(runs) && 0 <= i < |runs| - 1 && |out| == |runs|
    requires out[..i] == Shifted(runs)[..i] && out[i] == Lead(runs, i) + runs[i] && out[i + 1..] == runs[i + 1..]
    requires |out[i]| > 0
    requires var g := out[i];
      var moves := IsUpper(g[0]) && IsLower(out[i + 1][0]);
      && here == (if moves then g[..|g| - 1] else g)
      && next == (if moves then [Last(g)] + out[i + 1] else out[i + 1])
    ensures var o := out[..i] + [here, next] + out[i + 2..];
      && |o| == |runs| && o[..i + 1] == Shifted(runs)[..i + 1]
      && o[i + 1] == Lead(runs, i + 1) + runs[i + 1] && o[i + 2..] == runs[i + 2..]
  {
    assert out[i + 1] == runs[i + 1];
    ShiftStep(runs, i, out[i]);
    Splice(out, i, here, next, Shifted(runs), runs);
  }

  /** Replacing positions `i` and `i + 1` of `out`. */
  lemma Splice<T>(out: seq<T>, i: int, here: T, next: T, target: seq<T>, rest: seq<T>)
    requires 0 <= i < |out| - 1 && i < |target| && out[..i] == target[..i] && here == target[i]
    requires |rest| == |out| && out[i + 1..] == rest[i + 1..]
    ensures var o := out[..i] + [here, next] + out[i + 2..];
      && |o| == |out| && o[..i + 1] == target[..i + 1] && o[i + 1] == next && o[i + 2..] == rest[i + 2..]
  {
    var o := out[..i] + [here, next] + out[i + 2..];
    assert o[..i + 1] == out[..i] + [here];
    assert target[..i + 1] == target[..i] + [target[i]];
    assert out[i + 2..] == out[i + 1..][1..];
    assert rest[i + 2..] == rest[i + 1..][1..];
    assert o[i + 2..] == out[i + 2..];
  }

  /** What run `k` keeps, followed by what it gives away, is run `k`. */
  lemma BodyThenLead(rs: seq<string>, k: int)
    requires WellFormedRuns(rs) && 0 <= k < |rs|
    ensures Body(rs, k) + Lead(rs, k + 1) == rs[k]
  {
  }

  lemma {:induction false} ShiftedPrefix(rs: seq<string>, k: int)
    requires WellFormedRuns(rs) && 0 <= k <= |rs|
    ensures Flatten(Shifted(rs)[..k]) + Lead(rs, k) == Flatten(rs[..k])
  {
    if k > 0 {
      var sh := Shifted(rs);
      ShiftedPrefix(rs, k - 1);
      var a, l1, b, l2 := Flatten(sh[..k - 1]), Lead(rs, k - 1), Body(rs, k - 1), Lead(rs, k);
      assert sh[..k][..k - 1] == sh[..k - 1];
      assert Flatten(sh[..k]) == a + sh[k - 1];
      assert sh[k - 1] == l1 + b;
      assert rs[..k][..k - 1] == rs[..k - 1];
      assert Flatten(rs[..k]) == Flatten(rs[..k - 1]) + rs[k - 1];
      BodyThenLead(rs, k - 1);
      Regroup(a, l1, b, l2);
    }
  }

  lemma Regroup(a: string, b: string, c: string, d: string)
    ensures a + (b + c) + d == (a + b) + (c + d)
  {
  }

  /** The loop tests the groups as they are when it reaches them; the
      test gives the same answer as on the original runs. */
  lemma MovesAsChecked(runs: seq<string>, i: int)
    requires WellFormedRuns(runs) && 0 <= i < |runs| - 1
    ensures var g := Lead(runs, i) + runs[i];
      IsUpper(g[0]) && IsLower(runs[i + 1][0]) <==> Moves(runs, i)
  {
    if Lead(runs, i) != "" {
      assert Class(runs[i][0]) == LowerClass;
      assert Uniform(runs[i - 1]);
      assert ClassChangesAfter(runs, i);
    }
  }

  /** Shifting only moves letters between neighbours: the text is unchanged. */
  lemma ShiftedFlatten(rs: seq<string>)
    requires WellFormedRuns(rs)
    ensures Flatten(Shifted(rs)) == Flatten(rs)
  {
    ShiftedPrefix(rs, |rs|);
    assert Shifted(rs)[..|rs|] == Shifted(rs) && rs[..|rs|] == rs;
  }

  // ---------------------------------------------------------------------
  // Words and the rendered text.
  // ---------------------------------------------------------------------

  /** The groups that are not empty, in order. */
  function NonEmpty(gs: seq<string>): (ws: seq<string>)
    ensures forall i :: 0 <= i < |ws| ==> |ws[i]| > 0
    ensures Flatten(ws) == Flatten(gs)
  {
    if |gs| == 0 then []
    else
      var prev := NonEmpty(gs[..|gs| - 1]);
      if |gs[|gs| - 1]| == 0 then prev
      else
        var ws := prev + [gs[|gs| - 1]];
        assert ws[..|ws| - 1] == prev;
        ws
  }

  /** The words of a field name. */
  function Words(s: string): seq<string> {
    RunsWellFormed(s);
    NonEmpty(Shifted(Runs(s)))
  }

  /** The words spell out the field name exactly. */
  lemma WordsFlatten(s: string)
    ensures Flatten(Words(s)) == s
    ensures forall i :: 0 <= i < |Words(s)| ==> |Words(s)[i]| > 0
  {
    RunsWellFormed(s);
    ShiftedFlatten(Runs(s));
  }

  /** Every word after the first through `LcFirst`. */
  function LowerEach(ws: seq<string>): (r: seq<string>)
    ensures |r| == |ws|
    ensures forall i :: 0 <= i < |ws| ==> r[i] == LcFirst(ws[i])
  {
    if |ws| == 0 then [] else LowerEach(ws[..|ws| - 1]) + [LcFirst(ws[|ws| - 1])]
  }

  /** The first word through `UcFirst`, the others through `LcFirst`. */
  function Cased(ws: seq<string>): (r: seq<string>)
    ensures |r| == |ws|
    ensures |ws| > 0 ==> r[0] == UcFirst(ws[0])
    ensures forall i :: 0 < i < |ws| ==> r[i] == LcFirst(ws[i])
  {
    if |ws| == 0 then [] else [UcFirst(ws[0])] + LowerEach(ws[1..])
  }

  /** `strings.Join(ws, " ")`. */
  function JoinSpaces(ws: seq<string>): string {
    if |ws| == 0 then ""
    else if |ws| == 1 then ws[0]
    else JoinSpaces(ws[..|ws| - 1]) + " " + ws[|ws| - 1]
  }

  /** The text `Split` produces, in closed form. */
  function SplitText(s: string): string {
    JoinSpaces(Cased(Words(s)))
  }

  /** `Split`, as its loops compute it: the runs loop, the shift loop, then
      the case mapping and joining. */
  method Split(src: string) returns (r: string)
    ensures r == SplitText(src)
  {
    var runs: seq<string> := [];
    for i := 0 to |src|
      invariant runs == Runs(src[..i])
    {
      assert src[..i + 1] == src[..i] + [src[i]];
      RunsSnoc(src[..i], src[i]);
      if i > 0 && Class(src[i]) == Class(src[i - 1]) {
        runs := runs[..|runs| - 1] + [runs[|runs| - 1] + [src[i]]];
      } else {
        runs := runs + [[src[i]]];
      }
    }
    assert src[..|src|] == src;
    RunsWellFormed(src);
    var groups := ShiftUppers(runs);
    r := JoinSpaces(Cased(NonEmpty(groups)));
  }

  // ---------------------------------------------------------------------
  // `Split` on the bytes of a Go string.
  // ---------------------------------------------------------------------

  /** The bytes of each string. */
  function EncodeEach(xs: seq<string>): (r: seq<seq<byte>>)
    ensures |r| == |xs|
    ensures forall i :: 0 <= i < |xs| ==> r[i] == EncodeString(xs[i])
  {
    seq(|xs|, i requires 0 <= i < |xs| => EncodeString(xs[i]))
  }

  /** `strings.Join(bs, " ")` on bytes. */
  function JoinBytes(bs: seq<seq<byte>>): seq<byte> {
    if |bs| == 0 then []
    else if |bs| == 1 then bs[0]
    else JoinBytes(bs[..|bs| - 1]) + [0x20] + bs[|bs| - 1]
  }

  /** `Split` as written, on bytes: the first word goes through the byte
      slicing of `UcFirst`, every other word through `LcFirst`. */
  function SplitBytes(s: string): (r: seq<byte>)
    ensures |s| == 0 ==> r == []
    ensures |s| > 0 ==> EncodeRune(ToUpper(s[0])) <= r
  {
    WordsStart(s);
    JoinedPieces(Words(s))
  }

  /** The words of `Split` joined with spaces after the byte-level case mapping. */
  function JoinedPieces(ws: seq<string>): (r: seq<byte>)
    ensures |ws| == 0 ==> r == []
    ensures |ws| > 0 && |ws[0]| > 0 ==> EncodeRune(ToUpper(ws[0][0])) <= r
  {
    if |ws| == 0 then []
    else
      var pieces := [UcFirstBytes(ws[0])] + EncodeEach(LowerEach(ws[1..]));
      JoinedStartsUpper(ws[0], pieces);
      JoinBytes(pieces)
  }

  /** Bytes joined after the `UcFirst` of a word start with its upper-cased first character. */
  lemma JoinedStartsUpper(w: string, pieces: seq<seq<byte>>)
    requires |pieces| > 0 && pieces[0] == UcFirstBytes(w)
    ensures |w| > 0 ==> EncodeRune(ToUpper(w[0])) <= JoinBytes(pieces)
  {
    JoinBytesStart(pieces);
  }

  /** The joined bytes start with the first piece. */
  lemma {:induction false} JoinBytesStart(bs: seq<seq<byte>>)
    requires |bs| > 0
    ensures bs[0] <= JoinBytes(bs)
  {
    if |bs| >= 2 {
      JoinBytesStart(bs[..|bs| - 1]);
    }
  }

  /** The field name `中a` is the words `中` and `a`; as written the
      first word repeats its continuation bytes B8 AD. */
  lemma SplitBytesExample()
    ensures SplitBytes("\U{4E2D}a") == [0xE4, 0xB8, 0xAD, 0xB8, 0xAD, 0x20, 0x61]
    ensures EncodeString(SplitText("\U{4E2D}a")) == [0xE4, 0xB8, 0xAD, 0x20, 0x61]
  {
    ExampleWords();
    ExamplePieces();
    ExampleText();
  }

  lemma ExamplePieces()
    ensures JoinedPieces(["\U{4E2D}", "a"]) == [0xE4, 0xB8, 0xAD, 0xB8, 0xAD, 0x20, 0x61]
  {
    var x, y := "\U{4E2D}", "a";
    ExampleLowered();
    ExampleUcFirstBytes();
    JoinBytesTwo(UcFirstBytes(x), [0x61]);
    assert [UcFirstBytes(x)] + [[0x61]] == [UcFirstBytes(x), [0x61]];
  }

  lemma ExampleLowered()
    ensures EncodeEach(LowerEach(["\U{4E2D}", "a"][1..])) == [[0x61]]
  {
    var y := "a";
    assert ["\U{4E2D}", "a"][1..] == [y];
    assert LcFirst(y) == y;
    assert LowerEach([y]) == [y];
    assert EncodeString(y) == [0x61] by {
      assert y[1..] == "";
    }
  }

  lemma ExampleUcFirstBytes()
    ensures UcFirstBytes("\U{4E2D}") == [0xE4, 0xB8, 0xAD, 0xB8, 0xAD]
  {
    ExampleEncodings();
  }

  /** Two pieces joined with a space. */
  lemma JoinBytesTwo(a: seq<byte>, b: seq<byte>)
    ensures JoinBytes([a, b]) == a + [0x20] + b
  {
    assert [a, b][..1] == [a];
  }

  lemma ExampleText()
    ensures EncodeString(JoinSpaces(Cased(["\U{4E2D}", "a"]))) == [0xE4, 0xB8, 0xAD, 0x20, 0x61]
  {
    var x, y := "\U{4E2D}", "a";
    ExampleCased();
    EncodeJoinTwo(x, y);
    ExampleEncodings();
  }

  lemma ExampleCased()
    ensures Cased(["\U{4E2D}", "a"]) == ["\U{4E2D}", "a"]
  {
    var x, y := "\U{4E2D}", "a";
    ExampleEncodings();
    assert UcFirst(x) == x;
    assert LcFirst(y) == y;
  }

  /** Two words joined with a space, encoded. */
  lemma EncodeJoinTwo(x: string, y: string)
    ensures EncodeString(JoinSpaces([x, y])) == EncodeString(x) + [0x20] + EncodeString(y)
  {
    JoinTwo(x, y);
    EncodeConcat(x + " ", y);
    EncodeConcat(x, " ");
    assert EncodeString(" ") == [0x20] by {
      assert " "[1..] == "";
    }
  }

  lemma ExampleEncodings()
    ensures EncodeString("\U{4E2D}") == [0xE4, 0xB8, 0xAD]
    ensures EncodeString("a") == [0x61]
    ensures EncodeString(" ") == [0x20]
    ensures ToUpper('\U{4E2D}') == '\U{4E2D}'
  {
    assert EncodeRune('\U{4E2D}') == [0xE4, 0xB8, 0xAD];
    assert "\U{4E2D}"[1..] == "";
    assert "a"[1..] == "";
    assert " "[1..] == "";
  }

  lemma JoinTwo(x: string, y: string)
    ensures JoinSpaces([x, y]) == x + " " + y
  {
    assert [x, y][..1] == [x];
  }

  /** The words of `中a`: `中` is of the other class, `a` is lower case. */
  lemma ExampleWords()
    ensures Words("\U{4E2D}a") == ["\U{4E2D}", "a"]
  {
    ExampleRuns();
    RunsWellFormed("\U{4E2D}a");
    ExampleShifted();
    ExampleNonEmpty();
  }

  lemma ExampleShifted()
    requires WellFormedRuns(["\U{4E2D}", "a"])
    ensures Shifted(["\U{4E2D}", "a"]) == ["\U{4E2D}", "a"]
  {
    var rs := ["\U{4E2D}", "a"];
    assert !Moves(rs, 0) && !Moves(rs, 1);
    var sh := Shifted(rs);
    assert sh[0] == rs[0] && sh[1] == rs[1];
  }

  lemma ExampleNonEmpty()
    ensures NonEmpty(["\U{4E2D}", "a"]) == ["\U{4E2D}", "a"]
  {
    var x, y := "\U{4E2D}", "a";
    assert [x, y][..1] == [x] && [x][..0] == [];
    assert NonEmpty([x]) == [x];
  }

  lemma ExampleRuns()
    ensures Runs("\U{4E2D}a") == ["\U{4E2D}", "a"]
  {
    var x, y := "\U{4E2D}", "a";
    assert Uniform(x) && Uniform(y);
    RunsAppendRun("", x);
    assert "" + x == x;
    RunsAppendRun(x, y);
    assert x + y == "\U{4E2D}a";
  }

  lemma {:induction false} EncodeConcat(a: string, b: string)
    ensures EncodeString(a + b) == EncodeString(a) + EncodeString(b)
  {
    if |a| == 0 {
      assert a + b == b;
    } else {
      assert (a + b)[0] == a[0];
      assert (a + b)[1..] == a[1..] + b;
      EncodeConcat(a[1..], b);
    }
  }

  /** Joining the encoded words is encoding the joined words. */
  lemma {:induction false} JoinEncodes(xs: seq<string>)
    ensures JoinBytes(EncodeEach(xs)) == EncodeString(JoinSpaces(xs))
  {
    if |xs| >= 2 {
      var n := |xs|;
      var init, last := xs[..n - 1], xs[n - 1];
      var es := EncodeEach(xs);
      assert es[..n - 1] == EncodeEach(init);
      assert JoinBytes(es) == JoinBytes(EncodeEach(init)) + [0x20] + EncodeString(last);
      JoinEncodes(init);
      var j := JoinSpaces(init);
      assert JoinSpaces(xs) == j + " " + last;
      EncodeConcat(j + " ", last);
      EncodeConcat(j, " ");
      assert EncodeString(" ") == [0x20] by {
        assert " "[1..] == "";
      }
    }
  }

  /** Replacing the first piece changes the joined length by the change in its length. */
  lemma {:induction false} JoinFirstLength(bs: seq<seq<byte>>, b: seq<byte>)
    requires |bs| > 0
    ensures |JoinBytes(bs[0 := b])| == |JoinBytes(bs)| + |b| - |bs[0]|
  {
    if |bs| >= 2 {
      var n := |bs|;
      assert bs[0 := b][..n - 1] == bs[..n - 1][0 := b];
      JoinFirstLength(bs[..n - 1], b);
    }
  }

  /** A name has words exactly when it is not empty, and the first word
      starts with the first character of the name. */
  lemma WordsStart(s: string)
    ensures |Words(s)| == 0 <==> |s| == 0
    ensures |s| > 0 ==> |Words(s)[0]| > 0 && Words(s)[0][0] == s[0]
  {
    var ws := Words(s);
    WordsFlatten(s);
    if |ws| > 0 {
      assert ws == [ws[0]] + ws[1..];
      FlattenCons(ws[0], ws[1..]);
    }
  }

  lemma EncodeEachCons(x: string, xs: seq<string>)
    ensures EncodeEach([x] + xs) == [EncodeString(x)] + EncodeEach(xs)
  {
    var a := EncodeEach([x] + xs);
    var b := [EncodeString(x)] + EncodeEach(xs);
    forall i | 0 < i < |a|
      ensures a[i] == b[i]
    {
      assert a[i] == EncodeString(([x] + xs)[i]) == EncodeString(xs[i - 1]);
    }
  }

  /** The words of `Split` as written are those of `SplitText`, with the
      first one sliced as `UcFirstBytes` does. */
  lemma SplitBytesPieces(ws: seq<string>)
    requires |ws| > 0
    ensures JoinedPieces(ws) == JoinBytes(EncodeEach(Cased(ws))[0 := UcFirstBytes(ws[0])])
  {
    var pieces := [UcFirstBytes(ws[0])] + EncodeEach(LowerEach(ws[1..]));
    assert JoinedPieces(ws) == JoinBytes(pieces);
    CasedPieces(ws);
  }

  /** The pieces joined are the encoded `Cased` words with the first one replaced. */
  lemma CasedPieces(ws: seq<string>)
    requires |ws| > 0
    ensures [UcFirstBytes(ws[0])] + EncodeEach(LowerEach(ws[1..])) == EncodeEach(Cased(ws))[0 := UcFirstBytes(ws[0])]
  {
    assert Cased(ws) == [UcFirst(ws[0])] + LowerEach(ws[1..]);
    EncodeEachCons(UcFirst(ws[0]), LowerEach(ws[1..]));
  }

  /** On a name that starts with an ASCII character, `Split` as written
      yields exactly the encoding of `SplitText`. */
  lemma SplitBytesAscii(s: string)
    requires |s| == 0 || s[0] as int < 0x80
    ensures SplitBytes(s) == EncodeString(SplitText(s))
  {
    WordsStart(s);
    if |s| > 0 {
      JoinedPiecesAscii(Words(s));
    }
  }

  /** Joining words whose first one starts with an ASCII character. */
  lemma JoinedPiecesAscii(ws: seq<string>)
    requires |ws| > 0 && |ws[0]| > 0 && ws[0][0] as int < 0x80
    ensures JoinedPieces(ws) == EncodeString(JoinSpaces(Cased(ws)))
  {
    UcFirstBytesAscii(ws[0]);
    UcFirstUtf8Encodes(ws[0]);
    SplitBytesPieces(ws);
    var good := EncodeEach(Cased(ws));
    assert good[0 := UcFirstBytes(ws[0])] == good;
    JoinEncodes(Cased(ws));
  }

  /** On a name that starts with any other character, `Split` as written
      repeats that character's continuation bytes, so its output is not
      the encoding of `SplitText`. */
  lemma SplitBytesRepeatsContinuation(s: string)
    requires |s| > 0 && s[0] as int >= 0x80
    ensures |SplitBytes(s)| == |EncodeString(SplitText(s))| + |EncodeRune(s[0])| - 1
    ensures SplitBytes(s) != EncodeString(SplitText(s))
  {
    WordsStart(s);
    JoinedPiecesRepeat(Words(s));
  }

  /** Joining words whose first one starts with a multi-byte character. */
  lemma JoinedPiecesRepeat(ws: seq<string>)
    requires |ws| > 0 && |ws[0]| > 0 && ws[0][0] as int >= 0x80
    ensures |JoinedPieces(ws)| == |EncodeString(JoinSpaces(Cased(ws)))| + |EncodeRune(ws[0][0])| - 1
    ensures JoinedPieces(ws) != EncodeString(JoinSpaces(Cased(ws)))
  {
    UcFirstBytesRepeatsContinuation(ws[0]);
    SplitBytesPieces(ws);
    var good := EncodeEach(Cased(ws));
    JoinFirstLength(good, UcFirstBytes(ws[0]));
    JoinEncodes(Cased(ws));
  }

  /** Removing the inserted spaces. */
  function DropSpaces(s: string): (r: string)
    ensures ' ' !in r
  {
    if |s| == 0 then "" else DropSpaces(s[..|s| - 1]) + (if s[|s| - 1] == ' ' then "" else [s[|s| - 1]])
  }

  lemma {:induction false} DropSpacesConcat(a: string, b: string)
    ensures DropSpaces(a + b) == DropSpaces(a) + DropSpaces(b)
    decreases |b|
  {
    if |b| == 0 {
      assert a + b == a;
    } else {
      assert (a + b)[..|a + b| - 1] == a + b[..|b| - 1];
      DropSpacesConcat(a, b[..|b| - 1]);
    }
  }

  lemma {:induction false} DropSpacesNone(s: string)
    requires ' ' !in s
    ensures DropSpaces(s) == s
  {
    if |s| > 0 {
      assert ' ' !in s[..|s| - 1];
      DropSpacesNone(s[..|s| - 1]);
      assert s == s[..|s| - 1] + [s[|s| - 1]];
    }
  }

  /** Joining words without spaces and dropping the spaces gives their concatenation. */
  lemma {:induction false} DropSpacesJoin(ws: seq<string>)
    requires forall i :: 0 <= i < |ws| ==> ' ' !in ws[i]
    ensures DropSpaces(JoinSpaces(ws)) == Flatten(ws)
  {
    if |ws| == 1 {
      DropSpacesNone(ws[0]);
      assert Flatten(ws) == Flatten([]) + ws[0];
    } else if |ws| > 1 {
      var init, w := ws[..|ws| - 1], ws[|ws| - 1];
      assert forall i :: 0 <= i < |init| ==> init[i] == ws[i];
      DropSpacesJoin(init);
      assert ws == init + [w];
      JoinStep(init, w);
    }
  }

  lemma JoinStep(init: seq<string>, w: string)
    requires |init| > 0 && ' ' !in w && DropSpaces(JoinSpaces(init)) == Flatten(init)
    ensures DropSpaces(JoinSpaces(init + [w])) == Flatten(init + [w])
  {
    var ws := init + [w];
    assert ws[..|ws| - 1] == init;
    var j := JoinSpaces(init);
    var a := j + " ";
    assert JoinSpaces(ws) == a + w;
    assert Flatten(ws) == Flatten(init) + w;
    assert DropSpaces(a) == DropSpaces(j) by {
      DropSpacesConcat(j, " ");
      DropSpacesOneSpace();
    }
    assert DropSpaces(a + w) == DropSpaces(a) + w by {
      DropSpacesConcat(a, w);
      DropSpacesNone(w);
    }
  }

  lemma DropSpacesOneSpace()
    ensures DropSpaces(" ") == ""
  {
    assert " "[..0] == "";
  }

  /** Lower-casing the concatenation of lower-cased words. */
  lemma {:induction false} LowerEachFlatten(ws: seq<string>)
    ensures LowerAll(Flatten(LowerEach(ws))) == LowerAll(Flatten(ws))
  {
    if |ws| > 0 {
      var n := |ws| - 1;
      var l := LowerEach(ws);
      LowerEachFlatten(ws[..n]);
      assert l[..n] == LowerEach(ws[..n]);
      assert Flatten(l) == Flatten(l[..n]) + l[n];
      LowerAllConcat(Flatten(l[..n]), l[n]);
      LowerAllConcat(Flatten(ws[..n]), ws[n]);
      CaseMappingsKeepLowered(ws[n]);
    }
  }

  lemma FlattenCons(x: string, ys: seq<string>)
    ensures Flatten([x] + ys) == x + Flatten(ys)
  {
    FlattenConcat([x], ys);
    assert Flatten([x]) == Flatten([]) + x;
  }

  /** Lower-casing the concatenation of case-mapped words. */
  lemma LowerCased(ws: seq<string>)
    ensures LowerAll(Flatten(Cased(ws))) == LowerAll(Flatten(ws))
  {
    if |ws| > 0 {
      var u, t := UcFirst(ws[0]), ws[1..];
      var rest := LowerEach(t);
      assert Cased(ws) == [u] + rest;
      assert ws == [ws[0]] + t;
      FlattenCons(u, rest);
      FlattenCons(ws[0], t);
      calc {
        LowerAll(Flatten(Cased(ws)));
        LowerAll(u + Flatten(rest));
        { LowerAllConcat(u, Flatten(rest)); }
        LowerAll(u) + LowerAll(Flatten(rest));
        { CaseMappingsKeepLowered(ws[0]); LowerEachFlatten(t); }
        LowerAll(ws[0]) + LowerAll(Flatten(t));
        { LowerAllConcat(ws[0], Flatten(t)); }
        LowerAll(ws[0] + Flatten(t));
        LowerAll(Flatten(ws));
      }
    }
  }

  /** Each character of a word occurs in the concatenation. */
  lemma {:induction false} InFlatten(ws: seq<string>, i: int, k: int)
    requires 0 <= i < |ws| && 0 <= k < |ws[i]|
    ensures ws[i][k] in Flatten(ws)
  {
    var n := |ws| - 1;
    assert Flatten(ws) == Flatten(ws[..n]) + ws[n];
    if i < n {
      assert ws[..n][i] == ws[i];
      InFlatten(ws[..n], i, k);
    } else {
      assert Flatten(ws)[|Flatten(ws[..n])| + k] == ws[i][k];
    }
  }

  /** Case mapping never makes a space. */
  lemma CasedNoSpace(ws: seq<string>, i: int)
    requires 0 <= i < |ws| && ' ' !in ws[i]
    ensures ' ' !in Cased(ws)[i]
  {
  }

  /** Apart from case and the spaces between words, the text is the field
      name: for a name without spaces, dropping the spaces from the result
      and lower-casing gives the name lower-cased. */
  lemma SplitKeepsLetters(s: string)
    requires ' ' !in s
    ensures LowerAll(DropSpaces(SplitText(s))) == LowerAll(s)
  {
    var ws := Words(s);
    WordsFlatten(s);
    var c := Cased(ws);
    forall i | 0 <= i < |c|
      ensures ' ' !in c[i]
    {
      forall k | 0 <= k < |ws[i]|
        ensures ws[i][k] != ' '
      {
        InFlatten(ws, i, k);
      }
      CasedNoSpace(ws, i);
    }
    DropSpacesJoin(c);
    LowerCased(ws);
  }

  /** `ValidationErrorToText`: the message for a failed validation of
      `field`, by the tag of the rule that failed. */
  function ValidationErrorToText(field: string, tag: string, param: string): (msg: string)
    ensures tag == "email" ==> msg == "invalid email format"
    ensures tag != "email" ==> |msg| > |SplitText(field)| && msg[..|SplitText(field)| + 1] == SplitText(field) + " "
    ensures tag == "required" ==> msg == SplitText(field) + " is required"
    ensures tag == "max" ==> msg == SplitText(field) + " cannot be longer than " + param
    ensures tag == "min" ==> msg == SplitText(field) + " must be longer than " + param
    ensures tag == "len" ==> msg == SplitText(field) + " must be " + param + " characters long"
    ensures tag !in {"required", "max", "min", "email", "len"} ==> msg == SplitText(field) + " is not valid"
  {
    var word := SplitText(field);
    if tag == "required" then word + " is required"
    else if tag == "max" then word + " cannot be longer than " + param
    else if tag == "min" then word + " must be longer than " + param
    else if tag == "email" then "invalid email format"
    else if tag == "len" then word + " must be " + param + " characters long"
    else word + " is not valid"
  }

  /** One more character: it extends the last run or starts a new one. */
  lemma RunsSnoc(s: string, c: char)
    ensures var r := Runs(s);
      Runs(s + [c]) == if |s| > 0 && Class(Last(s)) == Class(c) then r[..|r| - 1] + [r[|r| - 1] + [c]] else r + [[c]]
  {
    assert (s + [c])[..|s|] == s;
  }

  /** A run of a class other than the last one's is appended whole. */
  lemma {:induction false} RunsAppendRun(s: string, g: string)
    requires |g| > 0 && Uniform(g)
    requires |s| > 0 ==> Class(Last(s)) != Class(g[0])
    ensures Runs(s + g) == Runs(s) + [g]
    decreases |g|
  {
    var n := |g| - 1;
    if n == 0 {
      FirstRun(s, g[0]);
      assert g == [g[0]];
    } else {
      var h := g[..n];
      assert Uniform(h) by {
        forall k | 0 <= k < |h|
          ensures Class(h[k]) == Class(h[0])
        {
          assert h[k] == g[k];
        }
      }
      assert h[0] == g[0];
      assert Class(Last(h)) == Class(g[n]) by {
        assert Last(h) == g[n - 1];
      }
      assert h + [g[n]] == g;
      assert s + g == (s + h) + [g[n]];
      RunsAppendRun(s, h);
      GrowLastRun(s, h, g[n]);
    }
  }

  lemma FirstRun(s: string, c: char)
    requires |s| > 0 ==> Class(Last(s)) != Class(c)
    ensures Runs(s + [c]) == Runs(s) + [[c]]
  {
    RunsSnoc(s, c);
  }

  lemma GrowLastRun(s: string, h: string, c: char)
    requires |h| > 0 && Class(Last(h)) == Class(c)
    requires Runs(s + h) == Runs(s) + [h]
    ensures Runs((s + h) + [c]) == Runs(s) + [h + [c]]
  {
    RunsSnoc(s + h, c);
    assert Last(s + h) == Last(h);
    var r := Runs(s + h);
    assert r[..|r| - 1] == Runs(s);
  }

  /** A name of one class is one capitalised word. */
  lemma SplitOneRun(s: string)
    requires |s| > 0 && Uniform(s)
    ensures SplitText(s) == UcFirst(s)
  {
    OneRunWords(s);
    assert Cased([s]) == [UcFirst(s)];
  }

  lemma OneRunWords(s: string)
    requires |s| > 0 && Uniform(s)
    ensures Words(s) == [s]
  {
    RunsAppendRun("", s);
    assert "" + s == s;
    assert Shifted([s]) == [s];
    assert NonEmpty([s]) == [s] by {
      assert [s][..0] == [];
    }
  }

  ghost predicate AllLower(s: string) {
    forall k :: 0 <= k < |s| ==> IsLower(s[k])
  }

  lemma CamelRuns(a: string, u: char, b: string)
    requires |a| > 0 && AllLower(a) && IsUpper(u) && |b| > 0 && AllLower(b)
    ensures Runs(a + [u] + b) == [a, [u], b]
  {
    assert Uniform(a) && Uniform([u]) && Uniform(b);
    RunsAppendRun("", a);
    assert "" + a == a;
    assert Runs(a) == [a];
    RunsAppendRun(a, [u]);
    assert Runs(a + [u]) == [a, [u]];
    assert Last(a + [u]) == u;
    RunsAppendRun(a + [u], b);
    assert Runs(a + [u] + b) == [a, [u]] + [b];
  }

  lemma CamelShifted(a: string, u: char, b: string)
    requires |a| > 0 && AllLower(a) && IsUpper(u) && |b| > 0 && AllLower(b)
    requires WellFormedRuns([a, [u], b])
    ensures Shifted([a, [u], b]) == [a, "", [u] + b]
  {
    var rs := [a, [u], b];
    assert !Moves(rs, 0) && Moves(rs, 1) && !Moves(rs, 2);
    var sh := Shifted(rs);
    assert sh[0] == a && sh[1] == "" && sh[2] == [u] + b;
  }

  lemma NonEmptyDropsEmpty(x: string, y: string)
    requires |x| > 0 && |y| > 0
    ensures NonEmpty([x, "", y]) == [x, y]
  {
    var g := [x, "", y];
    assert g[..2] == [x, ""] && g[..2][..1] == [x] && [x][..0] == [];
    assert NonEmpty([x]) == [x];
    assert NonEmpty([x, ""]) == [x];
  }

  lemma CamelWords(a: string, u: char, b: string)
    requires |a| > 0 && AllLower(a) && IsUpper(u) && |b| > 0 && AllLower(b)
    ensures Words(a + [u] + b) == [a, [u] + b]
  {
    CamelRuns(a, u, b);
    CamelShifted(a, u, b);
    NonEmptyDropsEmpty(a, [u] + b);
  }

  /** A lower-case word followed by a capitalised one (`firstName`): the
      capital letter starts the second word, which is then lower-cased
      (`First name`). */
  lemma SplitCamelCase(a: string, u: char, b: string)
    requires |a| > 0 && AllLower(a) && IsUpper(u) && |b| > 0 && AllLower(b)
    ensures SplitText(a + [u] + b) == UcFirst(a) + " " + [ToLower(u)] + b
  {
    CamelWords(a, u, b);
    var ws := [a, [u] + b];
    assert Cased(ws) == [UcFirst(a), LowerAll([u] + b)];
    assert LowerAll([u] + b) == [ToLower(u)] + b;
    var c := Cased(ws);
    assert c[..1] == [c[0]];
    assert JoinSpaces(c) == JoinSpaces(c[..1]) + " " + c[1];
  }
}
