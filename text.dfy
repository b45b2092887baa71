/** Counting, filtering and bracket-depth scanning over strings. */
module Text {
  import opened Wrappers

  /** Occurrences of `c` in `str`. */
  function Count(str: string, c: char): nat
  {
    if str == [] then 0 else (if str[0] == c then 1 else 0) + Count(str[1..], c)
  }

  lemma {:induction false} CountConcat(a: string, b: string, c: char)
    ensures Count(a + b, c) == Count(a, c) + Count(b, c)
  {
    if a != [] {
      assert (a + b)[1..] == a[1..] + b;
      CountConcat(a[1..], b, c);
    } else {
      assert a + b == b;
    }
  }

  /** Characters that group a product rather than name a matrix. */
  predicate IsPunctuation(c: char) {
    c == '(' || c == ')' || c == ' ' || c == '×'
  }

  /** `str` with every punctuation character removed. */
  function Strip(str: string): string
  {
    if str == [] then [] else (if IsPunctuation(str[0]) then [] else [str[0]]) + Strip(str[1..])
  }

  lemma {:induction false} StripConcat(a: string, b: string)
    ensures Strip(a + b) == Strip(a) + Strip(b)
  {
    if a != [] {
      assert (a + b)[1..] == a[1..] + b;
      StripConcat(a[1..], b);
    } else {
      assert a + b == b;
    }
  }

  /** Bracket depth after reading `str` from depth `d`, or None once a `)` has no partner. */
  function Scan(str: string, d: nat): Option<nat>
  {
    if str == [] then Some(d)
    else if str[0] == '(' then Scan(str[1..], d + 1)
    else if str[0] == ')' then (if d == 0 then None else Scan(str[1..], d - 1))
    else Scan(str[1..], d)
  }

  /** Every `)` closes an earlier `(` and nothing is left open. */
  predicate Balanced(str: string) {
    Scan(str, 0) == Some(0)
  }

  lemma {:induction false} ScanConcat(a: string, b: string, d: nat)
    ensures Scan(a + b, d) == if Scan(a, d).Some? then Scan(b, Scan(a, d).value) else None
  {
    if a != [] {
      assert (a + b)[1..] == a[1..] + b;
      if a[0] == '(' {
        ScanConcat(a[1..], b, d + 1);
      } else if a[0] == ')' {
        if d > 0 { ScanConcat(a[1..], b, d - 1); }
      } else {
        ScanConcat(a[1..], b, d);
      }
    } else {
      assert a + b == b;
    }
  }

  /** Starting deeper only shifts the final depth. */
  lemma {:induction false} ScanShift(a: string, d: nat, e: nat)
    requires Scan(a, d).Some?
    ensures Scan(a, d + e) == Some(Scan(a, d).value + e)
  {
    if a != [] {
      if a[0] == '(' {
        ScanShift(a[1..], d + 1, e);
      } else if a[0] == ')' {
        ScanShift(a[1..], d - 1, e);
      } else {
        ScanShift(a[1..], d, e);
      }
    }
  }

  /** A string without brackets leaves the depth where it was. */
  lemma {:induction false} ScanFlat(a: string, d: nat)
    requires Count(a, '(') == 0 && Count(a, ')') == 0
    ensures Scan(a, d) == Some(d)
  {
    if a != [] {
      ScanFlat(a[1..], d);
    }
  }

  lemma {:induction false} CountAbsent(str: string, c: char)
    requires forall t :: 0 <= t < |str| ==> str[t] != c
    ensures Count(str, c) == 0
  {
    if str != [] {
      CountAbsent(str[1..], c);
    }
  }

  lemma {:induction false} StripUnchanged(str: string)
    requires forall t :: 0 <= t < |str| ==> !IsPunctuation(str[t])
    ensures Strip(str) == str
  {
    if str != [] {
      StripUnchanged(str[1..]);
    }
  }

  /** Concatenation of sequences is associative. */
  lemma AppendAssociative<T>(a: seq<T>, b: seq<T>, c: seq<T>)
    ensures a + b + c == a + (b + c)
  {
  }
}
