/** Character-sequence helpers shared by the count patcher, the name filter and the
    name-list editor: literal substring search, suffix test, splitting and joining on
    one separator character, and the decimal rendering of a count. */
module Text {

  datatype Option<T> = None | Some(value: T)

  /** `sub` occurs in `s` starting at index `i`. */
  predicate OccursAt(s: string, sub: string, i: nat) {
    i + |sub| <= |s| && s[i..i + |sub|] == sub
  }

  /** `sub` occurs somewhere in `s`: what an unanchored literal pattern matches. */
  predicate Contains(s: string, sub: string) {
    exists i :: 0 <= i <= |s| && OccursAt(s, sub, i)
  }

  /** JavaScript `String.prototype.endsWith`. */
  predicate EndsWith(s: string, suffix: string) {
    |suffix| <= |s| && s[|s| - |suffix|..] == suffix
  }

  /** `sub` occurs in `s` exactly when `s` is something, then `sub`, then something:
      what an unanchored pattern `.*sub.*` matches. */
  lemma ContainsAsInfix(s: string, sub: string)
    ensures Contains(s, sub) <==> exists x: string, y: string :: s == x + sub + y
  {
    if Contains(s, sub) {
      var i :| 0 <= i <= |s| && OccursAt(s, sub, i);
      assert s == s[..i] + sub + s[i + |sub|..];
    }
    if exists x: string, y: string :: s == x + sub + y {
      var x: string, y: string :| s == x + sub + y;
      assert s[|x|..|x| + |sub|] == sub;
      assert OccursAt(s, sub, |x|);
    }
  }

  /** A pattern whose first character does not appear in `s` does not occur in `s`. */
  lemma AbsentFirstChar(s: string, sub: string)
    requires |sub| >= 1 && sub[0] !in s
    ensures !Contains(s, sub)
  {
    forall i | 0 <= i <= |s| ensures !OccursAt(s, sub, i) {
      if i + |sub| <= |s| {
        assert s[i..i + |sub|][0] == s[i];
      }
    }
  }

  /** `s` ends with `suffix` exactly when it is something followed by `suffix`. */
  lemma EndsWithAsSuffix(s: string, suffix: string)
    ensures EndsWith(s, suffix) <==> exists x: string :: s == x + suffix
  {
    if EndsWith(s, suffix) {
      assert s == s[..|s| - |suffix|] + suffix;
    }
    if exists x: string :: s == x + suffix {
      var x: string :| s == x + suffix;
      assert s[|x|..] == suffix;
    }
  }

  /** The first occurrence of `sub` in `s` at or after `from`, scanning left to right. */
  function IndexFrom(s: string, sub: string, from: nat): (r: Option<nat>)
    ensures r.Some? ==> from <= r.value && OccursAt(s, sub, r.value)
    ensures r.Some? ==> forall k: nat :: from <= k < r.value ==> !OccursAt(s, sub, k)
    ensures r.None? ==> forall k: nat :: from <= k ==> !OccursAt(s, sub, k)
    decreases |s| - from
  {
    if |s| < from + |sub| then None
    else if OccursAt(s, sub, from) then Some(from)
    else IndexFrom(s, sub, from + 1)
  }

  /** The first occurrence of `sub` in `s`, or `None` when it does not occur. */
  function IndexOf(s: string, sub: string): (r: Option<nat>)
    ensures r.Some? <==> Contains(s, sub)
    ensures r.Some? ==> OccursAt(s, sub, r.value)
    ensures r.Some? ==> forall k: nat :: k < r.value ==> !OccursAt(s, sub, k)
  {
    IndexFrom(s, sub, 0)
  }

  /** JavaScript `s.split(sep)` for a one-character separator: the pieces between
      separators, in order, untrimmed; `""` splits into `[""]`. */
  function Split(s: string, sep: char): (r: seq<string>)
    ensures |r| >= 1
    ensures forall k :: 0 <= k < |r| ==> sep !in r[k]
    decreases |s|
  {
    if s == [] then [""]
    else
      var init := Split(s[..|s| - 1], sep);
      var c := s[|s| - 1];
      if c == sep then init + [""]
      else init[..|init| - 1] + [init[|init| - 1] + [c]]
  }

  /** JavaScript `parts.join(sep)`: `[]` joins to `""`. */
  function Join(parts: seq<string>, sep: char): string
    decreases |parts|
  {
    if parts == [] then ""
    else if |parts| == 1 then parts[0]
    else Join(parts[..|parts| - 1], sep) + [sep] + parts[|parts| - 1]
  }

  /** Joining two non-empty lists puts one separator between their joins. */
  lemma {:induction false} JoinAppend(a: seq<string>, b: seq<string>, sep: char)
    requires |a| >= 1 && |b| >= 1
    ensures Join(a + b, sep) == Join(a, sep) + [sep] + Join(b, sep)
    decreases |b|
  {
    var ab := a + b;
    if |b| == 1 {
      assert ab[..|ab| - 1] == a;
    } else {
      var front := b[..|b| - 1];
      JoinAppend(a, front, sep);
      assert ab[..|ab| - 1] == a + front;
      assert ab[|ab| - 1] == b[|b| - 1];
    }
  }

  /** Joining the pieces of a split gives back the split string. */
  lemma {:induction false} JoinSplit(s: string, sep: char)
    ensures Join(Split(s, sep), sep) == s
    decreases |s|
  {
    if s != [] {
      var front := s[..|s| - 1];
      var c := s[|s| - 1];
      var init := Split(front, sep);
      JoinSplit(front, sep);
      assert s == front + [c];
      if c == sep {
        var parts := init + [""];
        assert parts[..|parts| - 1] == init;
        assert Join(parts, sep) == Join(init, sep) + [sep] + "";
      } else {
        var m := |init|;
        var parts := init[..m - 1] + [init[m - 1] + [c]];
        if m == 1 {
          assert Join(parts, sep) == init[0] + [c];
        } else {
          assert parts[..m - 1] == init[..m - 1];
          assert Join(init, sep) == Join(init[..m - 1], sep) + [sep] + init[m - 1];
          assert Join(parts, sep) == Join(init[..m - 1], sep) + [sep] + (init[m - 1] + [c]);
        }
      }
    }
  }

  /** A string without the separator splits into itself alone. */
  lemma {:induction false} SplitPlain(s: string, sep: char)
    requires sep !in s
    ensures Split(s, sep) == [s]
    decreases |s|
  {
    if s != [] {
      var front := s[..|s| - 1];
      assert sep !in front by {
        forall k | 0 <= k < |front| ensures front[k] != sep {
          assert front[k] == s[k];
        }
      }
      SplitPlain(front, sep);
      assert front + [s[|s| - 1]] == s;
    }
  }

  /** One step of `Split`: appending a character either starts a new piece or
      extends the last one. */
  lemma SplitSnoc(s: string, c: char, sep: char)
    ensures Split(s + [c], sep) == if c == sep then Split(s, sep) + [""]
      else Split(s, sep)[..|Split(s, sep)| - 1] + [Split(s, sep)[|Split(s, sep)| - 1] + [c]]
  {
    assert (s + [c])[..|s|] == s;
  }

  /** Extending the last piece of a concatenation extends the last piece of its right part. */
  lemma ExtendLast(left: seq<string>, right: seq<string>, c: char)
    requires |right| >= 1
    ensures var all := left + right;
      all[..|all| - 1] + [all[|all| - 1] + [c]]
      == left + (right[..|right| - 1] + [right[|right| - 1] + [c]])
  {
    var all := left + right;
    assert all[..|all| - 1] == left + right[..|right| - 1];
  }

  /** Splitting at a separator splits each side on its own. */
  lemma {:induction false} SplitAround(a: string, sep: char, b: string)
    ensures Split(a + [sep] + b, sep) == Split(a, sep) + Split(b, sep)
    decreases |b|
  {
    if b == [] {
      SplitSnoc(a, sep, sep);
      assert a + [sep] + b == a + [sep];
    } else {
      var front := b[..|b| - 1];
      var c := b[|b| - 1];
      var s1 := a + [sep] + front;
      assert s1 + [c] == a + [sep] + b;
      assert front + [c] == b;
      SplitAround(a, sep, front);
      SplitSnoc(s1, c, sep);
      SplitSnoc(front, c, sep);
      if c != sep {
        ExtendLast(Split(a, sep), Split(front, sep), c);
      }
    }
  }

  /** Splitting a join gives back the pieces when none contains the separator. */
  lemma {:induction false} SplitJoin(parts: seq<string>, sep: char)
    requires |parts| >= 1
    requires forall k :: 0 <= k < |parts| ==> sep !in parts[k]
    ensures Split(Join(parts, sep), sep) == parts
    decreases |parts|
  {
    var n := |parts|;
    if n == 1 {
      SplitPlain(parts[0], sep);
    } else {
      var init := parts[..n - 1];
      assert forall k :: 0 <= k < |init| ==> init[k] == parts[k];
      SplitJoin(init, sep);
      SplitJoinStep(parts, sep);
    }
  }

  /** The inductive step of `SplitJoin`: the last piece, without the separator, comes
      back on its own after the pieces before it. */
  lemma SplitJoinStep(parts: seq<string>, sep: char)
    requires |parts| >= 2 && sep !in parts[|parts| - 1]
    requires Split(Join(parts[..|parts| - 1], sep), sep) == parts[..|parts| - 1]
    ensures Split(Join(parts, sep), sep) == parts
  {
    var init, last := parts[..|parts| - 1], parts[|parts| - 1];
    SplitPlain(last, sep);
    SplitAround(Join(init, sep), sep, last);
    assert init + [last] == parts;
  }

  /** The character of a decimal digit. */
  function DigitChar(d: nat): (c: char)
    requires d < 10
    ensures '0' <= c <= '9'
  {
    (48 + d) as char
  }

  /** The decimal text of a count, as JavaScript's string concatenation renders a
      non-negative integer. */
  function Decimal(n: nat): (r: string)
    ensures |r| >= 1
    ensures forall k :: 0 <= k < |r| ==> '0' <= r[k] <= '9'
    ensures r[0] == '0' ==> n == 0
    decreases n
  {
    if n < 10 then [DigitChar(n)] else Decimal(n / 10) + [DigitChar(n % 10)]
  }

  /** The value of a string of decimal digits. */
  function DecimalValue(s: string): nat
    requires forall k :: 0 <= k < |s| ==> '0' <= s[k] <= '9'
    decreases |s|
  {
    if s == [] then 0
    else DecimalValue(s[..|s| - 1]) * 10 + (s[|s| - 1] as int - 48)
  }

  /** Reading back the rendered count gives the count. */
  lemma {:induction false} DecimalRoundTrip(n: nat)
    ensures DecimalValue(Decimal(n)) == n
    decreases n
  {
    if n >= 10 {
      DecimalRoundTrip(n / 10);
      var r := Decimal(n);
      assert r[..|r| - 1] == Decimal(n / 10);
    }
  }
}
