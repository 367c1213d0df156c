/** Where a read stops: the string delimiters and the client's own match condition. */
module Delimiters {
  import opened Text

  /** CRLF, CRLF CRLF, and the end of a header as `HeaderEndMatch` sees it. */
  datatype Delimiter = Crlf | CrlfCrlf | HeaderEnd

  /** The length of the run of CRs that ends at position `p`. */
  function CrRun(s: string, p: nat): (n: nat)
    requires p <= |s|
  {
    if p > 0 && s[p - 1] == '\r' then 1 + CrRun(s, p - 1) else 0
  }

  predicate CrlfAt(s: string, p: nat)
    requires p <= |s|
  {
    2 <= p && s[p - 2] == '\r' && s[p - 1] == '\n'
  }

  /** The text up to position `p` ends in the delimiter. A header ends in LF LF, or in CR LF CR LF
      whose first CR ends a run of CRs of odd length. */
  predicate EndsAt(d: Delimiter, s: string, p: nat)
    requires p <= |s|
  {
    match d
    case Crlf => CrlfAt(s, p)
    case CrlfCrlf => CrlfAt(s, p) && CrlfAt(s, p - 2)
    case HeaderEnd =>
      || (2 <= p && s[p - 2] == '\n' && s[p - 1] == '\n')
      || (CrlfAt(s, p) && CrlfAt(s, p - 2) && CrRun(s, p - 3) % 2 == 1)
  }

  /** The delimiter ends at no position before `p`. */
  predicate NoEnd(d: Delimiter, s: string, p: nat)
    requires p <= |s| + 1
  {
    forall k: nat :: k < p ==> !EndsAt(d, s, k)
  }

  /** `p` is the first position at which the delimiter ends. */
  predicate IsFirstEnd(d: Delimiter, s: string, p: nat) {
    p <= |s| && EndsAt(d, s, p) && NoEnd(d, s, p)
  }

  function FirstEndFrom(d: Delimiter, s: string, p: nat): (r: Option<nat>)
    requires p <= |s| && NoEnd(d, s, p)
    ensures r.Some? ==> IsFirstEnd(d, s, r.value)
    ensures r.None? ==> NoEnd(d, s, |s| + 1)
    decreases |s| - p
  {
    if EndsAt(d, s, p) then Some(p) else if p == |s| then None else FirstEndFrom(d, s, p + 1)
  }

  function FirstEnd(d: Delimiter, s: string): (r: Option<nat>)
    ensures r.Some? ==> IsFirstEnd(d, s, r.value)
    ensures r.None? ==> NoEnd(d, s, |s| + 1)
  {
    FirstEndFrom(d, s, 0)
  }

  lemma {:induction false} FirstEndIs(d: Delimiter, s: string, p: nat)
    requires IsFirstEnd(d, s, p)
    ensures FirstEnd(d, s) == Some(p)
  {
    hide EndsAt;
  }

  lemma {:induction false} FirstEndEnds(d: Delimiter, s: string, p: nat)
    requires IsFirstEnd(d, s, p)
    ensures p <= |s| && EndsAt(d, s, p)
  {
    hide EndsAt;
  }

  lemma {:induction false} NoFirstEnd(d: Delimiter, s: string)
    requires NoEnd(d, s, |s| + 1)
    ensures FirstEnd(d, s).None?
  {
    hide EndsAt;
  }

  lemma {:induction false} CrRunPrefix(s: string, more: string, p: nat)
    requires p <= |s|
    ensures CrRun(s + more, p) == CrRun(s, p)
  {
    if p > 0 {
      CrRunPrefix(s, more, p - 1);
    }
  }

  lemma {:induction false} EndsAtPrefix(d: Delimiter, s: string, more: string, p: nat)
    requires p <= |s|
    ensures EndsAt(d, s + more, p) == EndsAt(d, s, p)
  {
    if 3 <= p {
      CrRunPrefix(s, more, p - 3);
    }
  }

  /** More bytes do not move the first delimiter. */
  lemma {:induction false} FirstEndPrefix(d: Delimiter, s: string, more: string, p: nat)
    requires IsFirstEnd(d, s, p)
    ensures IsFirstEnd(d, s + more, p)
  {
    forall k: nat | k <= p ensures EndsAt(d, s + more, k) == EndsAt(d, s, k) {
      EndsAtPrefix(d, s, more, k);
    }
    hide EndsAt;
  }

  // ----- HeaderEndMatch

  /** The two counters of `HeaderEndMatch`. */
  datatype Counters = Counters(crlfcrlf: nat, lflf: nat)

  /** What the counters are worth after the first `p` characters, as long as no header end was seen:
      `lflf` tells whether the last one is LF, `crlfcrlf` how much of CR LF CR LF was seen. */
  function CountersAt(s: string, p: nat): Counters
    requires p <= |s|
  {
    if p == 0 then Counters(0, 0)
    else if s[p - 1] == '\n' then Counters(if CrRun(s, p - 1) % 2 == 1 then 2 else 0, 1)
    else if s[p - 1] == '\r' && CrRun(s, p) % 2 == 1 then
      Counters(if 2 <= p && s[p - 2] == '\n' && CrRun(s, p - 2) % 2 == 1 then 3 else 1, 0)
    else Counters(0, 0)
  }

  class HeaderEndMatch {
    var crlfcrlf: nat
    var lflf: nat
    ghost var seen: string

    /** No header end was reported yet, and the counters summarise what was seen. */
    ghost predicate Valid()
      reads this
    {
      && NoEnd(HeaderEnd, seen, |seen| + 1)
      && Counters(crlfcrlf, lflf) == CountersAt(seen, |seen|)
    }

    constructor ()
      ensures Valid() && seen == ""
    {
      crlfcrlf, lflf, seen := 0, 0, "";
    }

    lemma {:induction false} NothingFound()
      requires Valid()
      ensures FirstEnd(HeaderEnd, seen).None?
    {
      NoFirstEnd(HeaderEnd, seen);
    }

    /** The match condition, called on the next piece of the input. */
    method Match(piece: string) returns (it: nat, found: bool)
      requires Valid()
      modifies this
      ensures found ==> it <= |piece| && IsFirstEnd(HeaderEnd, old(seen) + piece, |old(seen)| + it)
      ensures !found ==> it == |piece| && Valid() && seen == old(seen) + piece
    {
      ghost var all, n := seen + piece, |seen|;
      SeenSoFar(seen, piece);
      it := 0;
      while it < |piece|
        invariant 0 <= it <= |piece|
        invariant NoEnd(HeaderEnd, all, n + it + 1)
        invariant Counters(crlfcrlf, lflf) == CountersAt(all, n + it)
      {
        CountersStep(all, n + it);
        assert all[n + it] == piece[it];
        hide CountersAt, EndsAt;
        if piece[it] == '\n' {
          if crlfcrlf == 1 {
            crlfcrlf := crlfcrlf + 1;
          } else if crlfcrlf == 2 {
            crlfcrlf := 0;
          } else if crlfcrlf == 3 {
            it := it + 1;
            return it, true;
          }
          if lflf == 0 {
            lflf := lflf + 1;
          } else if lflf == 1 {
            it := it + 1;
            return it, true;
          }
        } else if piece[it] == '\r' {
          if crlfcrlf == 0 {
            crlfcrlf := crlfcrlf + 1;
          } else if crlfcrlf == 2 {
            crlfcrlf := crlfcrlf + 1;
          } else {
            crlfcrlf := 0;
          }
          lflf := 0;
        } else {
          crlfcrlf := 0;
          lflf := 0;
        }
        it := it + 1;
      }
      seen := all;
      found := false;
    }
  }

  lemma {:induction false} SeenSoFar(seen: string, piece: string)
    requires NoEnd(HeaderEnd, seen, |seen| + 1)
    ensures NoEnd(HeaderEnd, seen + piece, |seen| + 1)
    ensures CountersAt(seen + piece, |seen|) == CountersAt(seen, |seen|)
  {
    forall k: nat | k <= |seen| ensures EndsAt(HeaderEnd, seen + piece, k) == EndsAt(HeaderEnd, seen, k) {
      EndsAtPrefix(HeaderEnd, seen, piece, k);
    }
    forall k: nat | k <= |seen| ensures CrRun(seen + piece, k) == CrRun(seen, k) {
      CrRunPrefix(seen, piece, k);
    }
    hide EndsAt;
  }

  /** How one more character moves the counters, and when it completes a header end. */
  lemma {:induction false} CountersStep(s: string, p: nat)
    requires p < |s| && !EndsAt(HeaderEnd, s, p)
    ensures var st, next := CountersAt(s, p), CountersAt(s, p + 1);
            && st.crlfcrlf <= 3 && st.lflf <= 1
            && if s[p] == '\n' then
                 && (EndsAt(HeaderEnd, s, p + 1) <==> st.crlfcrlf == 3 || st.lflf == 1)
                 && (!EndsAt(HeaderEnd, s, p + 1) ==> next == Counters(if st.crlfcrlf == 1 then 2 else 0, 1))
               else
                 && !EndsAt(HeaderEnd, s, p + 1)
                 && next.lflf == 0
                 && next.crlfcrlf ==
                    if s[p] != '\r' then 0 else if st.crlfcrlf == 0 then 1 else if st.crlfcrlf == 2 then 3 else 0
  {
    assert s[p] == '\r' ==> CrRun(s, p + 1) == 1 + CrRun(s, p);
    if p > 0 {
      assert s[p - 1] == '\r' ==> CrRun(s, p) == 1 + CrRun(s, p - 1);
    }
  }

  /** The textbook header end, CR LF CR LF alone, is not what is matched: a doubled CR hides it. */
  lemma {:induction false} DoubledCrIsMissed()
    ensures EndsAt(CrlfCrlf, "\r\r\n\r\n", 5) && FirstEnd(HeaderEnd, "\r\r\n\r\n").None?
  {
    var s := "\r\r\n\r\n";
    assert CrRun(s, 0) == 0 && CrRun(s, 1) == 1 && CrRun(s, 2) == 2;
    forall p: nat | p <= 5 ensures !EndsAt(HeaderEnd, s, p) {
    }
  }

  /** Without two adjacent CRs the match is exact: LF LF or CR LF CR LF. */
  lemma {:induction false} ExactWithoutDoubledCr(s: string, p: nat)
    requires p <= |s| && forall k :: 0 < k < |s| ==> !(s[k - 1] == '\r' && s[k] == '\r')
    ensures EndsAt(HeaderEnd, s, p) <==>
            EndsAt(CrlfCrlf, s, p) || (2 <= p && s[p - 2] == '\n' && s[p - 1] == '\n')
  {
    if EndsAt(CrlfCrlf, s, p) {
      assert CrRun(s, p - 3) == 1 + CrRun(s, p - 4);
      assert CrRun(s, p - 4) == 0;
    }
  }

  function Crs(n: nat): string {
    seq(n, _ => '\r')
  }

  lemma {:induction false} CrRunOfCrs(n: nat, more: string, p: nat)
    requires p <= n
    ensures CrRun(Crs(n) + more, p) == p
  {
    if p > 0 {
      CrRunOfCrs(n, more, p - 1);
    }
  }

  /** Of any number of CRs before LF CR LF: an odd number makes a header end, an even one hides it. */
  lemma {:induction false} OddCrsMakeHeaderEnd(n: nat)
    ensures EndsAt(HeaderEnd, Crs(n) + "\n\r\n", n + 3) <==> n % 2 == 1
  {
    CrRunOfCrs(n, "\n\r\n", n);
  }
}
