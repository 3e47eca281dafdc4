// The name of a conflicted copy: next to the file, with its extension, and never taken.
module ConflictName {
  import opened Common

  const NOTE := " (conflicted copy "

  /// A file: the folder that holds it, and its name.
  datatype Path = Path(dir: string, name: string)

  function Digit(d: nat): char
    requires d < 10
  {
    "0123456789"[d]
  }

  function Decimal(n: nat): (s: string)
    ensures s != "" && (|s| > 1 <==> n >= 10)
    ensures forall c :: c in s ==> '0' <= c <= '9'
  {
    if n < 10 then [Digit(n)] else Decimal(n / 10) + [Digit(n % 10)]
  }

  lemma {:induction false} DecimalIsInjective(m: nat, n: nat)
    requires Decimal(m) == Decimal(n)
    ensures m == n
  {
    var s := Decimal(m);
    assert s[|s| - 1] == Digit(m % 10) == Digit(n % 10);
    assert m % 10 == n % 10;
    if m >= 10 && n >= 10 {
      assert s[..|s| - 1] == Decimal(m / 10) == Decimal(n / 10);
      DecimalIsInjective(m / 10, n / 10);
    }
  }

  /// The number a numeral stands for.
  function ValueOf(s: string): int {
    if s == "" then 0 else 10 * ValueOf(s[..|s| - 1]) + (s[|s| - 1] as int - '0' as int)
  }

  /// The counter is written as the decimal numeral, without leading zeros.
  lemma {:induction false} DecimalIsTheNumeral(n: nat)
    ensures ValueOf(Decimal(n)) == n && (n > 0 ==> Decimal(n)[0] != '0')
  {
    var s := Decimal(n);
    var last := s[|s| - 1];
    assert last == Digit(n % 10) && last as int - '0' as int == n % 10;
    if n >= 10 {
      assert s[..|s| - 1] == Decimal(n / 10);
      DecimalIsTheNumeral(n / 10);
    } else {
      assert s[..|s| - 1] == "";
    }
  }

  /// The stamp, with a counter from the second attempt on.
  function Tag(stamp: string, attempt: nat): string {
    if attempt <= 1 then stamp else stamp + " " + Decimal(attempt)
  }

  function Suffix(ext: Option<string>): string {
    if ext.None? then ")" else ")." + ext.value
  }

  function Candidate(stem: string, ext: Option<string>, stamp: string, attempt: nat): string {
    stem + NOTE + Tag(stamp, attempt) + Suffix(ext)
  }

  lemma Surrounded(head: string, x: string, y: string, tail: string)
    requires head + x + tail == head + y + tail
    ensures x == y
  {
    var s := head + x + tail;
    assert |x| == |y|;
    assert x == s[|head|..|head| + |x|] == y;
  }

  /// Different attempts propose different names.
  lemma CandidateIsInjective(stem: string, ext: Option<string>, stamp: string, i: nat, j: nat)
    requires 1 <= i && 1 <= j && Candidate(stem, ext, stamp, i) == Candidate(stem, ext, stamp, j)
    ensures i == j
  {
    Surrounded(stem + NOTE, Tag(stamp, i), Tag(stamp, j), Suffix(ext));
    if i > 1 && j > 1 {
      Surrounded(stamp + " ", Decimal(i), Decimal(j), "");
      DecimalIsInjective(i, j);
    }
  }

  /// The last dot of a name, or -1.
  function LastDot(name: string): (i: int)
    ensures -1 <= i < |name|
    ensures i >= 0 ==> name[i] == '.'
    ensures forall k :: i < k < |name| ==> name[k] != '.'
  {
    if name == "" then -1
    else if name[|name| - 1] == '.' then |name| - 1
    else LastDot(name[..|name| - 1])
  }

  /// A dot that starts the name separates no extension.
  function Extension(name: string): Option<string> {
    var i := LastDot(name);
    if i <= 0 then None else Some(name[i + 1..])
  }

  function Stem(name: string): string {
    var i := LastDot(name);
    if i <= 0 then name else name[..i]
  }

  /// The extension is what follows the last dot, if something comes before that dot.
  lemma ExtensionMeans(name: string)
    ensures match Extension(name)
      case Some(ext) => name == Stem(name) + "." + ext && '.' !in ext && Stem(name) != ""
      case None => Stem(name) == name && forall k :: 0 < k < |name| ==> name[k] != '.'
  {
    var i := LastDot(name);
    if i > 0 {
      assert name == name[..i] + [name[i]] + name[i + 1..];
    }
  }

  lemma LastDotIs(name: string, i: int)
    requires -1 <= i < |name| && (i >= 0 ==> name[i] == '.') && forall k :: i < k < |name| ==> name[k] != '.'
    ensures LastDot(name) == i
  {
  }

  lemma LastDotAppend(name: string, tail: string)
    requires '.' !in tail
    ensures LastDot(name + tail) == LastDot(name)
  {
    var s := name + tail;
    assert forall k :: |name| <= k < |s| ==> s[k] == tail[k - |name|];
    LastDotIs(s, LastDot(name));
  }

  lemma LastDotBefore(head: string, ext: string)
    requires '.' !in ext
    ensures LastDot(head + "." + ext) == |head|
  {
    var dotted := head + ".";
    assert dotted[|dotted| - 1] == '.';
    LastDotAppend(dotted, ext);
  }

  /// What is put between the stem and the extension.
  function Middle(stamp: string, attempt: nat): string {
    NOTE + Tag(stamp, attempt) + ")"
  }

  lemma MiddleHasNoDot(stamp: string, attempt: nat)
    requires '.' !in stamp
    ensures '.' !in Middle(stamp, attempt)
  {
    assert '.' !in NOTE;
    assert '.' !in Tag(stamp, attempt);
  }

  lemma CandidateIs(stem: string, ext: Option<string>, stamp: string, attempt: nat)
    ensures Candidate(stem, ext, stamp, attempt) ==
      if ext.None? then stem + Middle(stamp, attempt) else stem + Middle(stamp, attempt) + "." + ext.value
  {
  }

  /// Whatever the attempt, the copy has the extension of the file.
  lemma CandidateKeepsExtension(name: string, stamp: string, attempt: nat)
    requires name != "" && '.' !in stamp
    ensures Extension(Candidate(Stem(name), Extension(name), stamp, attempt)) == Extension(name)
  {
    var stem, ext, middle := Stem(name), Extension(name), Middle(stamp, attempt);
    CandidateIs(stem, ext, stamp, attempt);
    MiddleHasNoDot(stamp, attempt);
    if ext.Some? {
      LastDotBefore(stem + middle, ext.value);
    } else {
      LastDotAppend(name, middle);
      assert LastDot(name) == 0 ==> (name + middle)[0] == '.';
    }
  }

  /// The copy is what this attempt proposes; what the earlier ones propose is taken.
  ghost predicate IsFirstFree(existing: set<string>, name: string, stamp: string, attempt: nat, copy: string) {
    && copy == Candidate(Stem(name), Extension(name), stamp, attempt)
    && forall i :: 1 <= i < attempt ==> Candidate(Stem(name), Extension(name), stamp, i) in existing
  }

  /// The stem of the file, the note with the stamp, a counter from the second attempt on, the extension.
  lemma CandidateReads(stem: string, ext: Option<string>, stamp: string, attempt: nat)
    requires attempt >= 1
    ensures Candidate(stem, ext, stamp, attempt) ==
      stem + " (conflicted copy " + stamp + (if attempt == 1 then "" else " " + Decimal(attempt)) + ")"
      + (if ext.None? then "" else "." + ext.value)
  {
    var counter := if attempt == 1 then "" else " " + Decimal(attempt);
    var end := if ext.None? then "" else "." + ext.value;
    Regroup(stem, NOTE, stamp, counter, ")", end);
    assert Tag(stamp, attempt) == stamp + counter;
    CandidateIs(stem, ext, stamp, attempt);
  }

  lemma Regroup(a: string, b: string, c: string, d: string, e: string, f: string)
    ensures a + (b + (c + d) + e) + f == a + b + c + d + e + f
  {
    assert b + (c + d) + e == b + c + d + e;
  }

  /// The counting loop. It ends because different attempts propose different names and the
  /// directory has finitely many.
  method UniqueConflictedName(existing: set<string>, name: string, stamp: string) returns (copy: string)
    requires name != "" && '.' !in stamp
    ensures copy !in existing
    ensures Extension(copy) == Extension(name)
    ensures exists attempt :: 1 <= attempt && IsFirstFree(existing, name, stamp, attempt, copy)
  {
    var stem, ext := Stem(name), Extension(name);
    var attempt := 1;
    ghost var tried: set<string> := {};
    while true
      invariant 1 <= attempt && tried <= existing
      invariant forall i :: 1 <= i < attempt ==> Candidate(stem, ext, stamp, i) in existing
      invariant forall c :: c in tried ==> exists i :: 1 <= i < attempt && c == Candidate(stem, ext, stamp, i)
      decreases existing - tried
    {
      var candidate := Candidate(stem, ext, stamp, attempt);
      if candidate !in existing {
        CandidateKeepsExtension(name, stamp, attempt);
        assert IsFirstFree(existing, name, stamp, attempt, candidate);
        return candidate;
      }
      forall i | 1 <= i < attempt ensures Candidate(stem, ext, stamp, i) != candidate {
        if Candidate(stem, ext, stamp, i) == candidate {
          CandidateIsInjective(stem, ext, stamp, i, attempt);
        }
      }
      tried := tried + {candidate};
      attempt := attempt + 1;
    }
  }
}
