/**
 * `System.Text.StringBuilder`, reduced to what the view compiler uses: the
 * text it holds and the two in-place `Replace` overloads. .NET throws when the
 * search string is empty or the range lies outside the buffer; the methods
 * require the opposite, and the callers model the throwing case.
 */
module Builders {
  import opened Text

  /** `Replace(a, b, start, count)`: replace only inside [start, start + count). */
  function ReplaceWithin(s: string, a: string, b: string, start: nat, count: nat): string
    requires |a| > 0 && start + count <= |s|
  {
    s[..start] + ReplaceAll(s[start..start + count], a, b) + s[start + count..]
  }

  class StringBuilder {
    var text: string

    constructor (s: string)
      ensures text == s
    {
      text := s;
    }

    /** `Replace(a, b)`: every non-overlapping occurrence, left to right. */
    method Replace(a: string, b: string)
      requires |a| > 0
      modifies this
      ensures text == ReplaceAll(old(text), a, b)
    {
      text := ReplaceAll(text, a, b);
    }

    method ReplaceRange(a: string, b: string, start: nat, count: nat)
      requires |a| > 0 && start + count <= |text|
      modifies this
      ensures text == ReplaceWithin(old(text), a, b, start, count)
    {
      text := ReplaceWithin(text, a, b, start, count);
    }
  }
}
