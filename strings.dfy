/**
 * The handful of PHP string functions the query builder relies on, modelled on
 * `seq<char>`: substring search (`strstr`), `strtoupper`, `trim`, `implode`,
 * `strrpos` on one character, and the decimal rendering of an integer.
 */
module Strings {
  import opened Wrappers

  /** `sub` occurs somewhere in `s` (PHP: `strstr($s, $sub) !== false`). */
  predicate Contains(s: string, sub: string)
    ensures Contains(s, sub) ==> |sub| <= |s|
    decreases |s|
  {
    sub <= s || (s != [] && Contains(s[1..], sub))
  }

  /** `sub` stands in `s` starting at index `k`. */
  predicate OccursAt(s: string, sub: string, k: nat)
  {
    k + |sub| <= |s| && s[k..k + |sub|] == sub
  }

  /** An occurrence at any index is found. */
  lemma {:induction false} OccursAtContains(s: string, sub: string, k: nat)
    requires OccursAt(s, sub, k)
    ensures Contains(s, sub)
    decreases k
  {
    if k == 0 {
      assert s[..|sub|] == sub;
    } else {
      assert s[1..][k - 1..k - 1 + |sub|] == s[k..k + |sub|];
      OccursAtContains(s[1..], sub, k - 1);
    }
  }

  /** `Contains` finds `sub` exactly when it stands at some index of `s`. */
  lemma {:induction false} ContainsIffOccurs(s: string, sub: string)
    ensures Contains(s, sub) <==> exists k: nat :: OccursAt(s, sub, k)
    decreases |s|
  {
    forall k: nat | OccursAt(s, sub, k) ensures Contains(s, sub) {
      OccursAtContains(s, sub, k);
    }
    if sub <= s {
      assert OccursAt(s, sub, 0);
    } else if s != [] && Contains(s[1..], sub) {
      ContainsIffOccurs(s[1..], sub);
      var k: nat :| OccursAt(s[1..], sub, k);
      assert s[k + 1..k + 1 + |sub|] == s[1..][k..k + |sub|];
      assert OccursAt(s, sub, k + 1);
    }
  }

  /** The text `b` occurs inside `a + b + c`. */
  lemma {:induction false} ContainsInfix(a: string, b: string, c: string)
    ensures Contains(a + b + c, b)
    decreases |a|
  {
    if a == [] {
      assert a + b + c == b + c;
    } else {
      assert (a + b + c)[1..] == a[1..] + b + c;
      ContainsInfix(a[1..], b, c);
    }
  }

  /**
   * PHP's `strstr($s, $sub)` used in a string context: the suffix of `s` that
   * starts at the first occurrence of `sub`, or `""` (the string form of PHP's
   * `false`) when `sub` does not occur.
   */
  function StrStr(s: string, sub: string): (r: string)
    ensures Contains(s, sub) ==> sub <= r && |r| <= |s| && r == s[|s| - |r|..]
    ensures Contains(s, sub) ==> forall k: nat :: k < |s| - |r| ==> !(sub <= s[k..])
    ensures !Contains(s, sub) ==> r == ""
    decreases |s|
  {
    if sub <= s then s
    else if s == [] then ""
    else
      var r := StrStr(s[1..], sub);
      assert forall k: nat :: 0 < k <= |s| ==> s[k..] == s[1..][k - 1..];
      r
  }

  /** A text that lacks the first character of `sub` does not contain `sub`. */
  lemma {:induction false} MissingFirstChar(s: string, sub: string)
    requires sub != [] && sub[0] !in s
    ensures !Contains(s, sub)
    decreases |s|
  {
    if s != [] {
      assert s[0] != sub[0];
      assert s == [s[0]] + s[1..];
      MissingFirstChar(s[1..], sub);
    }
  }

  /** Whether some character of `s` is in `chars` (a one-class regular expression match). */
  predicate ContainsAny(s: string, chars: set<char>)
    decreases |s|
  {
    s != [] && (s[0] in chars || ContainsAny(s[1..], chars))
  }

  /** `ContainsAny` holds exactly when some position of `s` holds a character of `chars`. */
  lemma {:induction false} ContainsAnyAt(s: string, chars: set<char>)
    ensures ContainsAny(s, chars) <==> exists i :: 0 <= i < |s| && s[i] in chars
    decreases |s|
  {
    if s != [] {
      ContainsAnyAt(s[1..], chars);
      assert forall i :: 0 < i < |s| ==> s[i] == s[1..][i - 1];
      if exists i :: 0 <= i < |s| && s[i] in chars {
        var i :| 0 <= i < |s| && s[i] in chars;
        if i > 0 {
          assert s[1..][i - 1] in chars;
        }
      }
    }
  }

  /** `strtoupper` on one character: only the ASCII letters a-z change. */
  function UpperChar(c: char): char
  {
    if 'a' <= c <= 'z' then (c as int - 32) as char else c
  }

  /** `strtoupper`: ASCII upper-casing, every other character kept. */
  function Upper(s: string): (r: string)
    ensures |r| == |s|
    ensures forall i :: 0 <= i < |s| ==> r[i] == UpperChar(s[i])
  {
    seq(|s|, i requires 0 <= i < |s| => UpperChar(s[i]))
  }

  /** The characters PHP's `trim` removes by default. */
  const TrimChars: set<char> := {' ', '\t', '\n', '\r', '\0', '\U{0B}'}

  /** A text none of whose characters is in `chars` does not match the class. */
  lemma {:induction false} NoneOfClass(s: string, chars: set<char>)
    requires forall c :: c in chars ==> c !in s
    ensures !ContainsAny(s, chars)
    decreases |s|
  {
    if s != [] {
      assert s == [s[0]] + s[1..];
      NoneOfClass(s[1..], chars);
    }
  }

  /** `ltrim`: drop white space from the front. */
  function TrimLeft(s: string): string
    decreases |s|
  {
    if s != [] && s[0] in TrimChars then TrimLeft(s[1..]) else s
  }

  /** `ltrim` keeps a suffix of its input that does not start with white space. */
  lemma {:induction false} TrimLeftSuffix(s: string)
    ensures |TrimLeft(s)| <= |s| && TrimLeft(s) == s[|s| - |TrimLeft(s)|..]
    ensures TrimLeft(s) == [] || TrimLeft(s)[0] !in TrimChars
    decreases |s|
  {
    if s != [] && s[0] in TrimChars {
      TrimLeftSuffix(s[1..]);
    }
  }

  /** `rtrim`: drop white space from the back. */
  function TrimRight(s: string): string
    decreases |s|
  {
    if s != [] && s[|s| - 1] in TrimChars then TrimRight(s[..|s| - 1]) else s
  }

  /** `rtrim` keeps a prefix of its input that does not end in white space. */
  lemma {:induction false} TrimRightPrefix(s: string)
    ensures TrimRight(s) <= s
    ensures TrimRight(s) == [] || TrimRight(s)[|TrimRight(s)| - 1] !in TrimChars
    decreases |s|
  {
    if s != [] && s[|s| - 1] in TrimChars {
      TrimRightPrefix(s[..|s| - 1]);
    }
  }

  /** PHP's `trim`: the infix of `s` left after removing white space at both ends. */
  function Trim(s: string): (r: string)
    ensures r == [] || (r[0] !in TrimChars && r[|r| - 1] !in TrimChars)
  {
    TrimLeftSuffix(s);
    TrimRightPrefix(TrimLeft(s));
    TrimRight(TrimLeft(s))
  }

  /** Everything `ltrim` removes is white space. */
  lemma {:induction false} TrimLeftDropsBlanks(s: string)
    ensures forall k :: 0 <= k < |s| - |TrimLeft(s)| ==> s[k] in TrimChars
    decreases |s|
  {
    if s != [] && s[0] in TrimChars {
      TrimLeftDropsBlanks(s[1..]);
      assert forall k :: 0 < k < |s| ==> s[k] == s[1..][k - 1];
    }
  }

  /** Everything `rtrim` removes is white space. */
  lemma {:induction false} TrimRightDropsBlanks(s: string)
    ensures forall k :: |TrimRight(s)| <= k < |s| ==> s[k] in TrimChars
    decreases |s|
  {
    if s != [] && s[|s| - 1] in TrimChars {
      TrimRightDropsBlanks(s[..|s| - 1]);
    }
  }

  /**
   * `trim` keeps the infix of `s` that starts at index `i`, the length of the
   * white space `ltrim` removes. Every character before it and every
   * character after it is white space.
   */
  lemma TrimIsInfix(s: string)
    ensures var i := |s| - |TrimLeft(s)|;
      0 <= i && i + |Trim(s)| <= |s| && Trim(s) == s[i..i + |Trim(s)|]
      && (forall k :: 0 <= k < i ==> s[k] in TrimChars)
      && (forall k :: i + |Trim(s)| <= k < |s| ==> s[k] in TrimChars)
  {
    var l := TrimLeft(s);
    var i := |s| - |l|;
    TrimLeftSuffix(s);
    TrimLeftDropsBlanks(s);
    TrimRightPrefix(l);
    TrimRightDropsBlanks(l);
    var r := TrimRight(l);
    assert r == l[..|r|];
    forall k | i + |r| <= k < |s| ensures s[k] in TrimChars {
      assert s[k] == l[k - i];
    }
  }

  /** A string that neither starts nor ends with white space is its own trim. */
  lemma TrimStable(s: string)
    requires s == [] || (s[0] !in TrimChars && s[|s| - 1] !in TrimChars)
    ensures Trim(s) == s
  {
  }

  /** Trimming text that ends in one separating blank removes exactly that blank. */
  lemma {:induction false} TrimTrailingBlank(body: string)
    requires body != [] && body[0] !in TrimChars && body[|body| - 1] !in TrimChars
    ensures Trim(body + " ") == body
  {
    var s := body + " ";
    assert s[0] == body[0];
    assert TrimLeft(s) == s;
    assert s[..|s| - 1] == body;
    assert TrimRight(s) == TrimRight(body);
  }

  /** `TrimTrailingBlank` for text made of a head and a tail whose outer ends are not blanks. */
  lemma TrimJoinedTrailingBlank(head: string, tail: string)
    requires head != [] && head[0] !in TrimChars
    requires tail != [] && tail[|tail| - 1] !in TrimChars
    ensures Trim(head + tail + " ") == head + tail
  {
    var body := head + tail;
    assert body[0] == head[0];
    assert body[|body| - 1] == tail[|tail| - 1];
    TrimTrailingBlank(body);
  }

  /** PHP's `implode($glue, $parts)`. */
  function Implode(parts: seq<string>, glue: string): string
    decreases |parts|
  {
    if |parts| == 0 then ""
    else if |parts| == 1 then parts[0]
    else Implode(parts[..|parts| - 1], glue) + glue + parts[|parts| - 1]
  }

  /** Read from the front: the first part, then the glue and the rest glued. */
  lemma {:induction false} ImplodeCons(x: string, rest: seq<string>, glue: string)
    ensures Implode([x] + rest, glue) == if rest == [] then x else x + glue + Implode(rest, glue)
    decreases |rest|
  {
    var parts := [x] + rest;
    if |rest| > 1 {
      var front := rest[..|rest| - 1];
      var y := rest[|rest| - 1];
      assert parts[..|parts| - 1] == [x] + front;
      assert Implode(parts, glue) == Implode([x] + front, glue) + glue + y;
      ImplodeCons(x, front, glue);
      assert Implode(rest, glue) == Implode(front, glue) + glue + y;
    } else if |rest| == 1 {
      assert parts[..1] == [x];
    }
  }

  /** String concatenation associates. */
  lemma ConcatAssociates(a: string, b: string, c: string)
    ensures (a + b) + c == a + (b + c)
  {
  }

  /** Sequence concatenation associates. */
  lemma SeqConcatAssociates<T>(a: seq<T>, b: seq<T>, c: seq<T>)
    ensures (a + b) + c == a + (b + c)
  {
  }

  /** Concatenating one more part onto an `implode` with no glue. */
  lemma ImplodeEmptyGlueStep(parts: seq<string>, j: nat)
    requires j < |parts|
    ensures Implode(parts[..j + 1], "") == Implode(parts[..j], "") + parts[j]
  {
    if j > 0 {
      assert parts[..j + 1][..j] == parts[..j];
    }
  }

  /** Every part followed by `t`, concatenated in order. */
  function Terminated(parts: seq<string>, t: string): string
    decreases |parts|
  {
    if parts == [] then "" else Terminated(parts[..|parts| - 1], t) + parts[|parts| - 1] + t
  }

  /** Terminating every part is the same as gluing them and terminating once. */
  lemma {:induction false} TerminatedIsImplodeThenGlue(parts: seq<string>, t: string)
    requires parts != []
    ensures Terminated(parts, t) == Implode(parts, t) + t
    decreases |parts|
  {
    var n := |parts|;
    if n > 1 {
      TerminatedIsImplodeThenGlue(parts[..n - 1], t);
      assert parts[..n - 1][..n - 2] == parts[..n - 2];
    } else {
      assert parts[..0] == [];
    }
  }

  /** Every part preceded by `t`, concatenated in order, is `t` followed by the parts glued with `t`. */
  lemma {:induction false} PrefixedIsGlueThenImplode(parts: seq<string>, t: string)
    requires parts != []
    ensures Implode(seq(|parts|, i requires 0 <= i < |parts| => t + parts[i]), "") == t + Implode(parts, t)
    decreases |parts|
  {
    var n := |parts|;
    var pre := seq(n, i requires 0 <= i < n => t + parts[i]);
    if n > 1 {
      var shorter := parts[..n - 1];
      assert pre[..n - 1] == seq(n - 1, i requires 0 <= i < n - 1 => t + shorter[i]);
      PrefixedIsGlueThenImplode(shorter, t);
    }
  }

  /** PHP's `strrpos($s, $c)` for a one-character needle. */
  function LastIndexOf(s: string, c: char): (r: Option<nat>)
    ensures r.Some? ==> r.value < |s| && s[r.value] == c
    ensures r.Some? ==> forall k :: r.value < k < |s| ==> s[k] != c
    ensures r.None? ==> forall k :: 0 <= k < |s| ==> s[k] != c
    decreases |s|
  {
    if s == [] then None
    else if s[|s| - 1] == c then Some(|s| - 1)
    else LastIndexOf(s[..|s| - 1], c)
  }

  /** The decimal digit character for `d`. */
  function DigitChar(d: nat): char
    requires d < 10
  {
    ('0' as int + d) as char
  }

  /** Every character of `s` is a decimal digit. */
  predicate AllDigits(s: string)
  {
    forall k :: 0 <= k < |s| ==> '0' <= s[k] <= '9'
  }

  /** The number a string of decimal digits denotes, most significant first. */
  function DecimalValue(s: string): nat
    requires AllDigits(s)
    decreases |s|
  {
    if s == [] then 0 else DecimalValue(s[..|s| - 1]) * 10 + (s[|s| - 1] as int - '0' as int)
  }

  /** The decimal digits of `n`, most significant first. */
  function NatToString(n: nat): (r: string)
    ensures r != []
    decreases n
  {
    if n < 10 then [DigitChar(n)] else NatToString(n / 10) + [DigitChar(n % 10)]
  }

  /** How PHP renders an integer when it is concatenated to a string. */
  function IntToString(i: int): (r: string)
    ensures r != []
  {
    if i < 0 then "-" + NatToString(-i) else NatToString(i)
  }

  /** `NatToString(n)` is the canonical decimal form of `n`: digits, no leading zero, reading back as `n`. */
  lemma {:induction false} NatToStringDecimal(n: nat)
    ensures AllDigits(NatToString(n))
    ensures DecimalValue(NatToString(n)) == n
    ensures NatToString(n)[0] == '0' ==> n == 0
    decreases n
  {
    var r := NatToString(n);
    if n >= 10 {
      NatToStringDecimal(n / 10);
      assert r[..|r| - 1] == NatToString(n / 10);
    }
  }

  /** An integer renders as an optional minus sign before the canonical decimal form of its magnitude. */
  lemma IntToStringDecimal(i: int)
    ensures var r := IntToString(i);
      var digits := if i < 0 then r[1..] else r;
      (i < 0 <==> r[0] == '-') && digits != [] && AllDigits(digits)
      && (digits[0] == '0' ==> i == 0) && DecimalValue(digits) == if i < 0 then -i else i
  {
    if i < 0 {
      NatToStringDecimal(-i);
      assert IntToString(i)[1..] == NatToString(-i);
    } else {
      NatToStringDecimal(i);
    }
  }
}
