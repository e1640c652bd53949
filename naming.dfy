/** The names of dated backup archives: `RE_BACKUP_FILE.match` (backup.py:21, 252) recognises
    `backup_<digits>-<digits>-<digits>.zip` at the start of a name, and `on_backup_completed` names the
    archive of the day `backup_<%Y-%m-%d>.zip` (backup.py:271-272). */
module Naming {
  import opened Base
  import opened Text
  import opened Dates

  const Prefix := "backup_"
  const Suffix := ".zip"

  /** The number of digits from position `i` of `s` on: what a greedy `\d+` takes there. */
  function DigitRun(s: string, i: nat): (n: nat)
    requires i <= |s|
    ensures i + n <= |s|
    decreases |s| - i
  {
    if i == |s| || !IsDigit(s[i]) then 0 else 1 + DigitRun(s, i + 1)
  }

  /** The run consists of digits, and no digit follows it. */
  lemma {:induction false} DigitRunSound(s: string, i: nat)
    requires i <= |s|
    ensures var n := DigitRun(s, i);
      (forall k :: i <= k < i + n ==> IsDigit(s[k])) && (i + n < |s| ==> !IsDigit(s[i + n]))
    decreases |s| - i
  {
    if i < |s| && IsDigit(s[i]) {
      DigitRunSound(s, i + 1);
    }
  }

  /** The literal text `lit` occurs in `s` at position `k`, compared character by character. */
  predicate LiteralAt(s: string, k: nat, lit: string)
    ensures LiteralAt(s, k, lit) ==> k + |lit| <= |s|
    decreases |lit|
  {
    if lit == [] then k <= |s| else k < |s| && s[k] == lit[0] && LiteralAt(s, k + 1, lit[1..])
  }

  /** The comparison is the slice equality. */
  lemma {:induction false} LiteralAtSlice(s: string, k: nat, lit: string)
    ensures LiteralAt(s, k, lit) <==> k + |lit| <= |s| && s[k..k + |lit|] == lit
    decreases |lit|
  {
    if lit != [] {
      LiteralAtSlice(s, k + 1, lit[1..]);
      if k < |s| && k + |lit| <= |s| {
        assert s[k..k + |lit|] == [s[k]] + s[k + 1..k + |lit|];
        assert lit == [lit[0]] + lit[1..];
      }
    }
  }

  /** `\d+` at position `i` followed by the literal `next`: where the digits end. The digits never have
      to give any back, since `next` does not start with a digit. */
  function Group(s: string, i: nat, next: string): (j: Option<nat>)
    requires i <= |s|
    ensures j.Some? ==> i < j.value && j.value + |next| <= |s|
  {
    var n := DigitRun(s, i);
    if n >= 1 && LiteralAt(s, i + n, next) then Some(i + n) else None
  }

  /** Where the group `\d+-\d+-\d+` ends when it starts at position `i` and `.zip` follows it. */
  function DateEnd(s: string, i: nat): (j: Option<nat>)
    requires i <= |s|
    ensures j.Some? ==> i < j.value && j.value + |Suffix| <= |s|
  {
    match Group(s, i, "-")
    case None => None
    case Some(j1) => TailEnd(s, j1 + 1)
  }

  /** Where `\d+-\d+` ends when it starts at position `i` and `.zip` follows it. */
  function TailEnd(s: string, i: nat): (j: Option<nat>)
    requires i <= |s|
    ensures j.Some? ==> i < j.value && j.value + |Suffix| <= |s|
  {
    match Group(s, i, "-")
    case None => None
    case Some(j2) => Group(s, j2 + 1, Suffix)
  }

  /** `RE_BACKUP_FILE.match(name)`, reduced to its group 1: the text of the embedded date, or none
      when the name is not a backup archive's. Only the start is anchored, so text may follow `.zip`. */
  function MatchBackupName(name: string): Option<string>
  {
    if !StartsWith(name, Prefix) then None
    else
      match DateEnd(name, |Prefix|)
      case None => None
      case Some(j) => Some(name[|Prefix|..j])
  }

  /** The shape of the regular expression's group: three non-empty runs of digits joined by `-`. */
  predicate IsDateGroup(g: string)
  {
    var p := Split(g, '-');
    |p| == 3 && Digits(p[0]) && Digits(p[1]) && Digits(p[2])
  }

  predicate Digits(x: string)
  {
    x != [] && AllDigits(x)
  }

  // ---------------------------------------------------------------------------------------------------
  // Positions and pieces

  lemma {:induction false} DigitRunExact(s: string, i: nat, n: nat)
    requires i + n <= |s|
    requires forall k :: i <= k < i + n ==> IsDigit(s[k])
    requires i + n < |s| ==> !IsDigit(s[i + n])
    ensures DigitRun(s, i) == n
    decreases n
  {
    if n > 0 {
      DigitRunExact(s, i + 1, n - 1);
    }
  }

  lemma GroupExact(s: string, i: nat, n: nat, next: string)
    requires n >= 1 && i + n + |next| <= |s|
    requires forall k :: i <= k < i + n ==> IsDigit(s[k])
    requires next != [] && !IsDigit(next[0]) && s[i + n..i + n + |next|] == next
    ensures Group(s, i, next) == Some(i + n)
  {
    assert s[i + n] == s[i + n..i + n + |next|][0];
    DigitRunExact(s, i, n);
    LiteralAtSlice(s, i + n, next);
  }

  lemma GroupSound(s: string, i: nat, next: string, j: nat)
    requires i <= |s| && Group(s, i, next) == Some(j)
    ensures j + |next| <= |s| && s[j..j + |next|] == next && Digits(s[i..j])
  {
    DigitRunSound(s, i);
    LiteralAtSlice(s, j, next);
    assert forall k :: 0 <= k < j - i ==> s[i..j][k] == s[i + k];
  }

  /** A slice cut in three. */
  lemma Slice3(s: string, i: nat, j: nat, k: nat)
    requires i <= j <= k <= |s|
    ensures s[i..k] == s[i..j] + s[j..k]
  {
  }

  /** A piece of a piece. */
  lemma PieceAt(s: string, i: nat, g: string, a: nat, x: string)
    requires i + |g| <= |s| && s[i..i + |g|] == g
    requires a + |x| <= |g| && g[a..a + |x|] == x
    ensures s[i + a..i + a + |x|] == x
  {
    forall k | 0 <= k < |x| ensures s[i + a..i + a + |x|][k] == x[k] {
      assert s[i + a + k] == s[i..i + |g|][a + k];
      assert g[a + k] == g[a..a + |x|][k];
    }
  }

  /** A run of digits `x` at position `start` of `s`, followed there by `next`, is a group. */
  lemma GroupAt(s: string, start: nat, x: string, next: string)
    requires start + |x| + |next| <= |s| && s[start..start + |x|] == x && s[start + |x|..start + |x| + |next|] == next
    requires Digits(x) && next != [] && !IsDigit(next[0])
    ensures Group(s, start, next) == Some(start + |x|)
  {
    DigitsAt(s, start, x);
    GroupExact(s, start, |x|, next);
  }

  lemma DigitsAt(s: string, i: nat, x: string)
    requires i + |x| <= |s| && s[i..i + |x|] == x && AllDigits(x)
    ensures forall k :: i <= k < i + |x| ==> IsDigit(s[k])
  {
    assert forall k :: i <= k < i + |x| ==> s[k] == x[k - i];
  }

  /** Where the pieces of `x-y-z.zip` lie. */
  lemma GroupPieces(x: string, y: string, z: string)
    ensures var w := x + "-" + y + "-" + z + Suffix; var b := |x| + 1; var c := b + |y| + 1;
      && w[0..|x|] == x && w[|x|..b] == "-" && w[b..b + |y|] == y && w[b + |y|..c] == "-"
      && w[c..c + |z|] == z && w[c + |z|..c + |z| + |Suffix|] == Suffix
  {
  }

  lemma DigitsHaveNoDash(x: string)
    requires AllDigits(x)
    ensures '-' !in x
  {
    forall i | 0 <= i < |x| ensures x[i] != '-' {
      assert IsDigit(x[i]);
    }
  }

  /** The three pieces of `a-b-c`, when none of them holds a `-`. */
  lemma SplitThree(a: string, b: string, c: string)
    requires Digits(a) && Digits(b) && Digits(c)
    ensures Split(a + "-" + b + "-" + c, '-') == [a, b, c]
  {
    DigitsHaveNoDash(a);
    DigitsHaveNoDash(b);
    DigitsHaveNoDash(c);
    assert a + "-" + b + "-" + c == a + ['-'] + (b + ['-'] + c);
    SplitCons(a, '-', b + ['-'] + c);
    SplitCons(b, '-', c);
    assert Split(c, '-') == [c];
  }

  /** Three pieces joined by `-`. */
  lemma JoinThree(p: seq<string>)
    requires |p| == 3
    ensures Join(p, '-') == p[0] + "-" + p[1] + "-" + p[2]
  {
    assert p[1..][1..] == [p[2]];
    assert Join(p[1..], '-') == p[1] + "-" + p[2];
  }

  // ---------------------------------------------------------------------------------------------------
  // Soundness and completeness

  /** What `DateEnd` accepts is a date group followed by `.zip`. */
  lemma DateSound(s: string, i: nat)
    requires i <= |s| && DateEnd(s, i).Some?
    ensures var j := DateEnd(s, i).value; s[j..j + |Suffix|] == Suffix && IsDateGroup(s[i..j])
  {
    var j1, j2, j := DateEndParts(s, i);
    GroupShape(s, i, j1, j2, j);
  }

  /** Three runs of digits separated by `-` form a date group. */
  lemma GroupShape(s: string, i: nat, j1: nat, j2: nat, j: nat)
    requires i < j1 && j1 + 1 < j2 && j2 + 1 < j <= |s|
    requires s[j1..j1 + 1] == "-" && s[j2..j2 + 1] == "-"
    requires Digits(s[i..j1]) && Digits(s[j1 + 1..j2]) && Digits(s[j2 + 1..j])
    ensures IsDateGroup(s[i..j])
  {
    Joined(s, i, j1, j2, j);
    SplitThree(s[i..j1], s[j1 + 1..j2], s[j2 + 1..j]);
  }

  lemma Joined(s: string, i: nat, j1: nat, j2: nat, j: nat)
    requires i <= j1 < j2 < j <= |s|
    requires s[j1..j1 + 1] == "-" && s[j2..j2 + 1] == "-"
    ensures s[i..j] == s[i..j1] + "-" + s[j1 + 1..j2] + "-" + s[j2 + 1..j]
  {
    var a, b, c := s[i..j1], s[j1 + 1..j2], s[j2 + 1..j];
    Slice3(s, i, j1, j);
    SliceDash(s, j1, j);
    Slice3(s, j1 + 1, j2, j);
    SliceDash(s, j2, j);
    DashAssoc(a, b, c);
  }

  lemma SliceDash(s: string, j: nat, k: nat)
    requires j < k <= |s| && s[j..j + 1] == "-"
    ensures s[j..k] == "-" + s[j + 1..k]
  {
    Slice3(s, j, j + 1, k);
  }

  lemma DashAssoc(a: string, b: string, c: string)
    ensures a + ("-" + (b + ("-" + c))) == a + "-" + b + "-" + c
  {
  }

  /** A date group followed by `.zip` is accepted in full. */
  lemma DateComplete(s: string, i: nat, x: string, y: string, z: string)
    requires Digits(x) && Digits(y) && Digits(z)
    requires var w := x + "-" + y + "-" + z + Suffix; i + |w| <= |s| && s[i..i + |w|] == w
    ensures DateEnd(s, i) == Some(i + |x + "-" + y + "-" + z|)
  {
    var p1, p2, p3 := DatePieces(s, i, x, y, z);
    DateEndAt(s, i, x, y, z, p1, p2, p3);
  }

  /** The three groups `DateEnd` looks for, at the places `DatePieces` found them. */
  lemma DateEndAt(s: string, i: nat, x: string, y: string, z: string, p1: nat, p2: nat, p3: nat)
    requires Digits(x) && Digits(y) && Digits(z)
    requires p1 == i + |x| && p2 == p1 + 1 + |y| && p3 == p2 + 1 + |z| && p3 + |Suffix| <= |s|
    requires s[i..p1] == x && s[p1..p1 + 1] == "-" && s[p1 + 1..p2] == y && s[p2..p2 + 1] == "-"
    requires s[p2 + 1..p3] == z && s[p3..p3 + |Suffix|] == Suffix
    ensures DateEnd(s, i) == Some(p3)
  {
    GroupAt(s, i, x, "-");
    GroupAt(s, p1 + 1, y, "-");
    GroupAt(s, p2 + 1, z, Suffix);
    DateEndOf(s, i, p1, p2, p3);
  }

  /** Where the pieces of `x-y-z.zip` lie in `s`. */
  lemma DatePieces(s: string, i: nat, x: string, y: string, z: string) returns (p1: nat, p2: nat, p3: nat)
    requires var w := x + "-" + y + "-" + z + Suffix; i + |w| <= |s| && s[i..i + |w|] == w
    ensures p1 == i + |x| && p2 == p1 + 1 + |y| && p3 == p2 + 1 + |z| && p3 == i + |x + "-" + y + "-" + z|
    ensures p3 + |Suffix| <= |s|
    ensures s[i..p1] == x && s[p1..p1 + 1] == "-" && s[p1 + 1..p2] == y && s[p2..p2 + 1] == "-"
    ensures s[p2 + 1..p3] == z && s[p3..p3 + |Suffix|] == Suffix
  {
    p1 := i + |x|;
    p2 := p1 + 1 + |y|;
    p3 := p2 + 1 + |z|;
    GroupPieces(x, y, z);
    HeadPieces(s, i, x + "-" + y + "-" + z + Suffix, x, y);
    TailPieces(s, i, x + "-" + y + "-" + z + Suffix, |x| + 1 + |y|, z);
  }

  lemma HeadPieces(s: string, i: nat, w: string, x: string, y: string)
    requires i + |w| <= |s| && s[i..i + |w|] == w && |x| + 1 + |y| <= |w|
    requires w[0..|x|] == x && w[|x|..|x| + 1] == "-" && w[|x| + 1..|x| + 1 + |y|] == y
    ensures s[i..i + |x|] == x && s[i + |x|..i + |x| + 1] == "-"
    ensures s[i + |x| + 1..i + |x| + 1 + |y|] == y
  {
    PieceAt(s, i, w, 0, x);
    PieceAt(s, i, w, |x|, "-");
    PieceAt(s, i, w, |x| + 1, y);
  }

  lemma TailPieces(s: string, i: nat, w: string, b: nat, z: string)
    requires i + |w| <= |s| && s[i..i + |w|] == w && b + 1 + |z| + |Suffix| <= |w|
    requires w[b..b + 1] == "-" && w[b + 1..b + 1 + |z|] == z && w[b + 1 + |z|..b + 1 + |z| + |Suffix|] == Suffix
    ensures s[i + b..i + b + 1] == "-" && s[i + b + 1..i + b + 1 + |z|] == z
    ensures s[i + b + 1 + |z|..i + b + 1 + |z| + |Suffix|] == Suffix
  {
    PieceAt(s, i, w, b, "-");
    PieceAt(s, i, w, b + 1, z);
    PieceAt(s, i, w, b + 1 + |z|, Suffix);
  }

  /** The three runs of digits and the separators `DateEnd` passed over. */
  lemma DateEndParts(s: string, i: nat) returns (j1: nat, j2: nat, j: nat)
    requires i <= |s| && DateEnd(s, i).Some?
    ensures j == DateEnd(s, i).value && i < j1 && j1 + 1 < j2 && j2 + 1 < j && j + |Suffix| <= |s|
    ensures s[j1..j1 + 1] == "-" && s[j2..j2 + 1] == "-" && s[j..j + |Suffix|] == Suffix
    ensures Digits(s[i..j1]) && Digits(s[j1 + 1..j2]) && Digits(s[j2 + 1..j])
  {
    j1 := FirstGroup(s, i);
    j2, j := TailParts(s, j1 + 1);
  }

  lemma FirstGroup(s: string, i: nat) returns (j1: nat)
    requires i <= |s| && DateEnd(s, i).Some?
    ensures j1 + 1 <= |s| && DateEnd(s, i) == TailEnd(s, j1 + 1)
    ensures i < j1 && s[j1..j1 + 1] == "-" && Digits(s[i..j1])
  {
    j1 := Group(s, i, "-").value;
    DateEndStep(s, i, j1);
    GroupSound(s, i, "-", j1);
  }

  lemma DateEndStep(s: string, i: nat, j1: nat)
    requires i <= |s| && Group(s, i, "-") == Some(j1)
    ensures j1 + 1 <= |s| && DateEnd(s, i) == TailEnd(s, j1 + 1)
  {
  }

  lemma TailParts(s: string, i: nat) returns (j2: nat, j: nat)
    requires i <= |s| && TailEnd(s, i).Some?
    ensures j == TailEnd(s, i).value && i < j2 && j2 + 1 < j && j + |Suffix| <= |s|
    ensures s[j2..j2 + 1] == "-" && s[j..j + |Suffix|] == Suffix
    ensures Digits(s[i..j2]) && Digits(s[j2 + 1..j])
  {
    j2 := Group(s, i, "-").value;
    GroupSound(s, i, "-", j2);
    j := Group(s, j2 + 1, Suffix).value;
    GroupSound(s, j2 + 1, Suffix, j);
  }

  lemma DateEndOf(s: string, i: nat, j1: nat, j2: nat, j: nat)
    requires i <= |s|
    requires j1 + 1 <= |s|
    requires Group(s, i, "-") == Some(j1)
    requires j2 + 1 <= |s|
    requires Group(s, j1 + 1, "-") == Some(j2)
    requires Group(s, j2 + 1, Suffix) == Some(j)
    ensures DateEnd(s, i) == Some(j)
  {
    assert TailEnd(s, j1 + 1) == Some(j);
  }

  /** A name is recognised with group `g` exactly when it starts with `backup_`, `g` and `.zip`, and `g`
      has the shape digits-digits-digits. */
  lemma MatchExact(name: string, g: string)
    ensures MatchBackupName(name) == Some(g) <==> StartsWith(name, Prefix + g + Suffix) && IsDateGroup(g)
  {
    if MatchBackupName(name) == Some(g) {
      MatchSound(name);
    }
    if StartsWith(name, Prefix + g + Suffix) && IsDateGroup(g) {
      MatchComplete(name, g);
    }
  }

  /** What is recognised has the pattern's shape. */
  lemma MatchSound(name: string)
    requires MatchBackupName(name).Some?
    ensures var g := MatchBackupName(name).value; StartsWith(name, Prefix + g + Suffix) && IsDateGroup(g)
  {
    var j := DateEnd(name, |Prefix|).value;
    DateSound(name, |Prefix|);
    Slice3(name, 0, |Prefix|, j);
    Slice3(name, 0, j, j + |Suffix|);
    assert name[..j + |Suffix|] == name[0..j + |Suffix|];
    assert name[..|Prefix|] == name[0..|Prefix|];
  }

  /** What has the pattern's shape is recognised, with the intended group. */
  lemma MatchComplete(name: string, g: string)
    requires StartsWith(name, Prefix + g + Suffix) && IsDateGroup(g)
    ensures MatchBackupName(name) == Some(g)
  {
    var p := Split(g, '-');
    JoinThree(p);
    StartPieces(name, Prefix, g, Suffix);
    MatchPieces(name, g, p[0], p[1], p[2]);
  }

  /** The group `x-y-z` after the prefix and before `.zip` is what the expression captures. */
  lemma MatchPieces(name: string, g: string, x: string, y: string, z: string)
    requires Digits(x) && Digits(y) && Digits(z) && g == x + "-" + y + "-" + z
    requires |Prefix| + |g + Suffix| <= |name| && name[..|Prefix|] == Prefix
    requires name[|Prefix|..|Prefix| + |g|] == g && name[|Prefix|..|Prefix| + |g + Suffix|] == g + Suffix
    ensures MatchBackupName(name) == Some(g)
  {
    DateComplete(name, |Prefix|, x, y, z);
    MatchAt(name, |Prefix| + |g|);
  }

  /** A text that starts with `a + b + c` holds `a` and then `b`, and `b + c` after `a`. */
  lemma StartPieces(s: string, a: string, b: string, c: string)
    requires StartsWith(s, a + b + c)
    ensures s[..|a|] == a && s[|a|..|a| + |b|] == b && s[|a|..|a| + |b + c|] == b + c
  {
    var w := a + b + c;
    assert s[0..|w|] == w;
    assert w[..|a|] == a;
    assert w[|a|..|a| + |b|] == b;
    assert w[|a|..|w|] == b + c;
    PieceAt(s, 0, w, 0, a);
    PieceAt(s, 0, w, |a|, b);
    PieceAt(s, 0, w, |a|, b + c);
  }

  /** A name that starts with the prefix and whose group ends at `j` matches with the text before `j`. */
  lemma MatchAt(name: string, j: nat)
    requires StartsWith(name, Prefix) && |Prefix| <= |name| && DateEnd(name, |Prefix|) == Some(j)
    ensures MatchBackupName(name) == Some(name[|Prefix|..j])
  {
  }

  /** The name of the day's archive (`final_filename`). */
  function FinalName(today: Date): string
    requires Valid(today)
  {
    Prefix + FormatDate(today) + Suffix
  }

  /** The archive of the day is always recognised, with its date as the group; for the four-digit years
      the date reads back as the day itself, so the next runs can age it. */
  lemma FinalNameRecognised(today: Date)
    requires Valid(today)
    ensures MatchBackupName(FinalName(today)) == Some(FormatDate(today))
    ensures today.year >= 1000 ==> ParseDate(MatchBackupName(FinalName(today)).value) == Ok(today)
  {
    var y, m, d := DecimalText(today.year), TwoDigits(today.month), TwoDigits(today.day);
    var g := FormatDate(today);
    assert g == y + "-" + m + "-" + d;
    SplitThree(y, m, d);
    var name := FinalName(today);
    PrefixOf(name);
    MatchComplete(name, g);
    if today.year >= 1000 {
      ParseFormat(today);
    }
  }

  lemma PrefixOf(s: string)
    ensures StartsWith(s, s)
  {
    assert s[..|s|] == s;
  }

  /** A name built from three runs of digits is recognised, whatever follows `.zip`. */
  lemma MatchOf(x: string, y: string, z: string, rest: string)
    requires Digits(x) && Digits(y) && Digits(z)
    ensures MatchBackupName(Prefix + x + "-" + y + "-" + z + Suffix + rest) == Some(x + "-" + y + "-" + z)
  {
    var g := x + "-" + y + "-" + z;
    var name := Prefix + x + "-" + y + "-" + z + Suffix + rest;
    assert name == (Prefix + g + Suffix) + rest;
    assert name[..|Prefix + g + Suffix|] == Prefix + g + Suffix;
    StartPieces(name, Prefix, g, Suffix);
    MatchPieces(name, g, x, y, z);
  }

  /** Only the start of the name is anchored: whatever is appended to a recognised name, it is still
      recognised with the same group. */
  lemma MatchExtends(name: string, rest: string)
    requires MatchBackupName(name).Some?
    ensures MatchBackupName(name + rest) == MatchBackupName(name)
  {
    var g := MatchBackupName(name).value;
    MatchExact(name, g);
    var w := Prefix + g + Suffix;
    assert (name + rest)[..|w|] == name[..|w|];
    MatchExact(name + rest, g);
  }

  // ---------------------------------------------------------------------------------------------------
  // Examples

  /** A dated archive name is recognised, with its date as the group. */
  lemma MatchArchive()
    ensures MatchBackupName("backup_2024-10-13.zip") == Some("2024-10-13")
  {
    assert "2024" + "-" + "10" + "-" + "13" == "2024-10-13";
    assert Prefix + "2024" + "-" + "10" + "-" + "13" + Suffix + "" == "backup_2024-10-13.zip";
    MatchOf("2024", "10", "13", "");
  }

  /** Text after `.zip` does not stop a name from being recognised. */
  lemma MatchTrailingText()
    ensures MatchBackupName("backup_2024-10-13.zip.part") == Some("2024-10-13")
  {
    MatchArchive();
    MatchExtends("backup_2024-10-13.zip", ".part");
    assert "backup_2024-10-13.zip" + ".part" == "backup_2024-10-13.zip.part";
  }

  /** A date without its day is not recognised. */
  lemma MissingField()
    ensures MatchBackupName("backup_2024-10.zip") == None
  {
    var s := "backup_2024-10.zip";
    assert StartsWith(s, Prefix);
    DigitRunExact(s, 7, 4);
    assert Group(s, 7, "-") == Some(11);
    DigitRunExact(s, 12, 2);
    assert s[14..15] != "-";
  }

  /** Neither a name without digits nor a name with another prefix is recognised. */
  lemma NotDigits()
    ensures MatchBackupName("backup_final.zip") == None
    ensures MatchBackupName("old_backup_2024-10-13.zip") == None
  {
    assert "backup_final.zip"[..7] == Prefix;
    assert !IsDigit("backup_final.zip"[7]);
    assert "old_backup_2024-10-13.zip"[0] != Prefix[0];
  }
}
