/** String helpers shared by the pages: the part of JavaScript's `toLowerCase`
    that Turkish titles and names exercise, substring search (`includes`),
    and the decimal rendering of a millisecond clock reading (`Date.now().toString()`). */
module Text {

  /** Letters that lowercase to themselves: ASCII lower-case letters and digits. */
  predicate IsAsciiLowerOrDigit(c: char) {
    ('a' <= c <= 'z') || ('0' <= c <= '9')
  }

  /** U+0307 COMBINING DOT ABOVE, the second half of the lower-case form of 'İ'. */
  const CombiningDot: char := '\U{0307}'

  /** One of the six Turkish capitals Ç Ğ Ö Ş Ü İ. */
  predicate IsTurkishCapital(c: char) {
    c == '\U{00C7}' || c == '\U{011E}' || c == '\U{00D6}' || c == '\U{015E}' || c == '\U{00DC}' || c == '\U{0130}'
  }

  /** JavaScript's (locale-independent) lower-case mapping of one character, for
      ASCII, the Turkish capitals Ç Ğ Ö Ş Ü and the dotted capital İ, which
      lowercases to two characters. Every other character is left unchanged. */
  function LowerChar(c: char): (r: seq<char>)
    ensures 1 <= |r| <= 2
    ensures c != '\U{0130}' ==> |r| == 1
    ensures 'A' <= c <= 'Z' ==> r == [(c as int + 32) as char]
    ensures c == '\U{0130}' ==> r == ['i', CombiningDot]
    ensures c == '\U{00C7}' ==> r == ['\U{00E7}']
    ensures c == '\U{011E}' ==> r == ['\U{011F}']
    ensures c == '\U{00D6}' ==> r == ['\U{00F6}']
    ensures c == '\U{015E}' ==> r == ['\U{015F}']
    ensures c == '\U{00DC}' ==> r == ['\U{00FC}']
    ensures !('A' <= c <= 'Z') && !IsTurkishCapital(c) ==> r == [c]
    ensures IsAsciiLowerOrDigit(c) || c == '-' ==> r == [c]
  {
    if 'A' <= c <= 'Z' then [(c as int + 32) as char]
    else if c == '\U{00C7}' then ['\U{00E7}']        // Ç -> ç
    else if c == '\U{011E}' then ['\U{011F}']        // Ğ -> ğ
    else if c == '\U{00D6}' then ['\U{00F6}']        // Ö -> ö
    else if c == '\U{015E}' then ['\U{015F}']        // Ş -> ş
    else if c == '\U{00DC}' then ['\U{00FC}']        // Ü -> ü
    else if c == '\U{0130}' then ['i', CombiningDot] // İ -> i + U+0307
    else [c]
  }

  /** `s.toLowerCase()`, character by character. */
  function Lower(s: string): (r: string)
    ensures |r| >= |s|
  {
    if s == [] then [] else LowerChar(s[0]) + Lower(s[1..])
  }

  /** Lowercasing distributes over concatenation. */
  lemma {:induction false} LowerConcat(a: string, b: string)
    ensures Lower(a + b) == Lower(a) + Lower(b)
    decreases |a|
  {
    if a == [] {
      assert a + b == b;
    } else {
      assert (a + b)[0] == a[0];
      assert (a + b)[1..] == a[1..] + b;
      LowerConcat(a[1..], b);
      calc {
        Lower(a + b);
        LowerChar(a[0]) + Lower(a[1..] + b);
        LowerChar(a[0]) + (Lower(a[1..]) + Lower(b));
        (LowerChar(a[0]) + Lower(a[1..])) + Lower(b);
      }
    }
  }

  /** Every character produced by `LowerChar` already lowercases to itself. */
  lemma LowerCharFixed(c: char)
    ensures Lower(LowerChar(c)) == LowerChar(c)
  {
    var r := LowerChar(c);
    if |r| == 2 {
      assert r == ['i', CombiningDot];
      assert r[1..] == [CombiningDot];
      assert Lower([CombiningDot]) == [CombiningDot] by {
        assert [CombiningDot][1..] == [];
      }
    } else {
      assert LowerChar(r[0]) == [r[0]];
      assert r[1..] == [];
    }
  }

  /** Away from 'İ', lowercasing maps each character to one character and keeps the length. */
  lemma {:induction false} LowerPointwise(s: string)
    requires forall i :: 0 <= i < |s| ==> s[i] != '\U{0130}'
    ensures |Lower(s)| == |s|
    ensures forall i :: 0 <= i < |s| ==> Lower(s)[i] == LowerChar(s[i])[0]
    decreases |s|
  {
    if s != [] {
      var rest := s[1..];
      forall i | 0 <= i < |rest| ensures rest[i] != '\U{0130}' {
        assert rest[i] == s[i + 1];
      }
      LowerPointwise(rest);
      assert Lower(s) == LowerChar(s[0]) + Lower(rest);
      forall i | 0 <= i < |s| ensures Lower(s)[i] == LowerChar(s[i])[0] {
        if i > 0 {
          assert rest[i - 1] == s[i];
        }
      }
    }
  }

  /** Lower-case ASCII letters, digits and '-' are left as they are. */
  lemma {:induction false} LowerKeeps(s: string)
    requires forall i :: 0 <= i < |s| ==> IsAsciiLowerOrDigit(s[i]) || s[i] == '-'
    ensures Lower(s) == s
    decreases |s|
  {
    if s != [] {
      var rest := s[1..];
      forall i | 0 <= i < |rest| ensures IsAsciiLowerOrDigit(rest[i]) || rest[i] == '-' {
        assert rest[i] == s[i + 1];
      }
      LowerKeeps(rest);
      assert LowerChar(s[0]) == [s[0]];
      assert Lower(s) == LowerChar(s[0]) + Lower(rest);
      assert s == [s[0]] + rest;
    }
  }

  /** Lowercasing is idempotent, so a search that lowercases both sides does not
      depend on the case in which the query was typed. */
  lemma {:induction false} LowerIdempotent(s: string)
    ensures Lower(Lower(s)) == Lower(s)
    decreases |s|
  {
    if s != [] {
      LowerConcat(LowerChar(s[0]), Lower(s[1..]));
      LowerCharFixed(s[0]);
      LowerIdempotent(s[1..]);
    }
  }

  /** `sub` occurs in `s` starting at position `i`. */
  predicate OccursAt(s: string, sub: string, i: int) {
    0 <= i <= |s| - |sub| && s[i..i + |sub|] == sub
  }

  /** `s.includes(sub)`: `sub` occurs in `s` as a contiguous block. */
  predicate Contains(s: string, sub: string) {
    exists i | 0 <= i <= |s| :: OccursAt(s, sub, i)
  }

  /** The empty string occurs in every string. */
  lemma ContainsEmpty(s: string)
    ensures Contains(s, "")
  {
    assert OccursAt(s, "", 0);
  }

  /** A string occurs in itself. */
  lemma ContainsSelf(s: string)
    ensures Contains(s, s)
  {
    assert OccursAt(s, s, 0);
  }

  /** Decimal digits as characters. */
  function Digit(d: nat): (c: char)
    requires d < 10
    ensures '0' <= c <= '9'
  {
    ('0' as int + d) as char
  }

  /** `n.toString()` for a non-negative integer, e.g. the value of `Date.now()`. */
  function Stamp(n: nat): (r: string)
    ensures |r| >= 1
    ensures forall i :: 0 <= i < |r| ==> '0' <= r[i] <= '9'
    decreases n
  {
    if n < 10 then [Digit(n)] else Stamp(n / 10) + [Digit(n % 10)]
  }
}
