/**
 * Short-code generation, shared by both controllers: a base code derived from
 * the URL's Java hash, then a probe of `base`, `base + "1"`, `base + "2"`, ...
 * against the store until a candidate is free.
 */
module ShortCodes {
  import opened JavaLang
  import opened Repository

  /** `Integer.toHexString(Math.abs(url.hashCode()))`. */
  function BaseCode(url: string): string
  {
    ToHexString(MathAbs(HashCode(url)))
  }

  /** The base code is a lower-case hexadecimal numeral without leading zeros
      that denotes |hashCode|, except that the hash `Integer.MIN_VALUE` (whose
      absolute value Java cannot represent) gives "80000000". */
  lemma BaseCodeValue(url: string)
    ensures 1 <= |BaseCode(url)|
    ensures BaseCode(url)[0] == '0' ==> BaseCode(url) == "0"
    ensures forall k :: 0 <= k < |BaseCode(url)| ==> IsDigit(BaseCode(url)[k], 16)
    ensures HashCode(url) != MinInt32 ==>
              NumeralValue(BaseCode(url), 16) == (if HashCode(url) < 0 then -HashCode(url) else HashCode(url))
    ensures HashCode(url) == MinInt32 ==> NumeralValue(BaseCode(url), 16) == TwoTo31
  {
    MathAbsValue(HashCode(url));
    NumeralRoundTrip(Unsigned(MathAbs(HashCode(url))), 16);
  }

  /** The k-th probe: the base code, then the base code followed by k in decimal. */
  function Candidate(base: string, k: nat): string
  {
    if k == 0 then base else base + ToDecimalString(k)
  }

  /** Distinct probe numbers give distinct candidates. */
  lemma CandidateInjective(base: string, i: nat, j: nat)
    requires Candidate(base, i) == Candidate(base, j)
    ensures i == j
  {
    if i != 0 && j != 0 {
      assert Candidate(base, i)[|base|..] == ToDecimalString(i);
      assert Candidate(base, j)[|base|..] == ToDecimalString(j);
      NumeralInjective(i, j, 10);
    }
  }

  /** Pigeonhole: k pairwise distinct candidates all taken need k taken codes. */
  lemma {:induction false} CandidatesBound(base: string, taken: set<string>, k: nat)
    requires forall j :: 0 <= j < k ==> Candidate(base, j) in taken
    ensures k <= |taken|
  {
    if k > 0 {
      var c := Candidate(base, k - 1);
      forall j | 0 <= j < k - 1
        ensures Candidate(base, j) in taken - {c}
      {
        if Candidate(base, j) == c {
          CandidateInjective(base, j, k - 1);
        }
      }
      CandidatesBound(base, taken - {c}, k - 1);
    }
  }

  /** The first free probe number at or after k, given that all before k are
      taken; it is at most the number of taken codes. */
  function FreeIndex(base: string, taken: set<string>, k: nat): (r: nat)
    requires forall j :: 0 <= j < k ==> Candidate(base, j) in taken
    requires k <= |taken|
    ensures k <= r <= |taken|
    ensures Candidate(base, r) !in taken
    ensures forall j :: 0 <= j < r ==> Candidate(base, j) in taken
    decreases |taken| - k
  {
    if Candidate(base, k) !in taken then k
    else
      CandidatesBound(base, taken, k + 1);
      FreeIndex(base, taken, k + 1)
  }

  /** The code the generator picks for `url` when the codes in `taken` are in use. */
  function UniqueShortCode(url: string, taken: set<string>): (r: string)
    ensures r !in taken
  {
    Candidate(BaseCode(url), FreeIndex(BaseCode(url), taken, 0))
  }

  /** The generated code is the least free candidate: the base code when it is
      free, and otherwise the base followed by the least k >= 1 that is free;
      it is found within |taken| + 1 probes. */
  lemma UniqueShortCodeIsLeastFree(url: string, taken: set<string>, k: nat)
    requires Candidate(BaseCode(url), k) !in taken
    requires forall j :: 0 <= j < k ==> Candidate(BaseCode(url), j) in taken
    ensures UniqueShortCode(url, taken) == Candidate(BaseCode(url), k)
    ensures k <= |taken|
  {
    CandidatesBound(BaseCode(url), taken, k);
    var r := FreeIndex(BaseCode(url), taken, 0);
    assert !(r < k) && !(k < r);
  }

  /** The probe loop of `generateUniqueShortCode`, against the store. */
  method GenerateUniqueShortCode(repository: UrlRepository, url: string) returns (shortCode: string)
    ensures shortCode !in Codes(repository.documents)
    ensures shortCode == UniqueShortCode(url, Codes(repository.documents))
  {
    ghost var taken := Codes(repository.documents);
    var baseShortCode := BaseCode(url);
    shortCode := baseShortCode;
    var counter := 1;
    while repository.ContainsShortCode(shortCode)
      invariant 1 <= counter
      invariant shortCode == Candidate(baseShortCode, counter - 1)
      invariant forall j :: 0 <= j < counter - 1 ==> Candidate(baseShortCode, j) in taken
      decreases |taken| - counter
    {
      assert Candidate(baseShortCode, counter - 1) in taken;
      forall j | 0 <= j < counter
        ensures Candidate(baseShortCode, j) in taken
      {
      }
      CandidatesBound(baseShortCode, taken, counter);
      shortCode := baseShortCode + ToDecimalString(counter);
      counter := counter + 1;
    }
    assert shortCode == UniqueShortCode(url, taken) by {
      UniqueShortCodeIsLeastFree(url, taken, counter - 1);
    }
  }
}
