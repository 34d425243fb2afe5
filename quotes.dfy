/**
 * The quote stripping applied to the udev NAME attribute before it is looked
 * up as a MAC address: `name.replace(/['"]+/g, '')` removes every run of
 * single and double quotes and keeps every other character in order.
 */
module Quotes {

  predicate IsQuote(c: char) {
    c == '\'' || c == '"'
  }

  predicate QuoteFree(s: string) {
    forall i :: 0 <= i < |s| ==> !IsQuote(s[i])
  }

  /** Removing all runs of quotes is the same as removing each quote character. */
  function StripQuotes(s: string): (r: string)
    ensures |r| <= |s|
    ensures QuoteFree(r)
    ensures QuoteFree(s) ==> |r| == |s|
  {
    if s == [] then []
    else if IsQuote(s[0]) then StripQuotes(s[1..])
    else [s[0]] + StripQuotes(s[1..])
  }

  /** Stripping distributes over concatenation: the kept characters stay in their order. */
  lemma {:induction false} StripQuotesAppend(a: string, b: string)
    ensures StripQuotes(a + b) == StripQuotes(a) + StripQuotes(b)
  {
    if a == [] {
      assert a + b == b;
    } else {
      assert (a + b)[0] == a[0];
      assert (a + b)[1..] == a[1..] + b;
      StripQuotesAppend(a[1..], b);
    }
  }

  /** A string is left alone exactly when it holds no quote character. */
  lemma {:induction false} StripQuotesFixedPoint(s: string)
    ensures StripQuotes(s) == s <==> QuoteFree(s)
  {
    if s != [] && QuoteFree(s) {
      assert QuoteFree(s[1..]) by {
        forall i | 0 <= i < |s[1..]| ensures !IsQuote(s[1..][i]) {
          assert s[1..][i] == s[i + 1];
        }
      }
      StripQuotesFixedPoint(s[1..]);
      assert !IsQuote(s[0]);
      assert s == [s[0]] + s[1..];
    }
  }

  /** Stripping twice is stripping once. */
  lemma StripQuotesIdempotent(s: string)
    ensures StripQuotes(StripQuotes(s)) == StripQuotes(s)
  {
    StripQuotesFixedPoint(StripQuotes(s));
  }

  /** Every non-quote character occurs as often after stripping as before; no quote survives. */
  lemma {:induction false} StripQuotesCounts(s: string, c: char)
    ensures multiset(StripQuotes(s))[c] == if IsQuote(c) then 0 else multiset(s)[c]
  {
    if s == [] {
    } else {
      StripQuotesCounts(s[1..], c);
      assert s == [s[0]] + s[1..];
      assert multiset(s) == multiset([s[0]]) + multiset(s[1..]);
      if !IsQuote(s[0]) {
        assert multiset(StripQuotes(s)) == multiset([s[0]]) + multiset(StripQuotes(s[1..]));
      }
    }
  }
}
