/**
 * `get_model_name` of the price predictor: the name under which a model is
 * registered, built from the product, the candle window and the number of
 * forecast steps.
 */
module ModelRegistry {
  import opened Text

  /** `s.replace('/', '_')`. */
  function ReplaceSlash(s: string): (r: string)
    ensures |r| == |s|
    ensures forall i :: 0 <= i < |s| ==> r[i] == (if s[i] == '/' then '_' else s[i])
    ensures forall i :: 0 <= i < |r| ==> r[i] != '/'
  {
    if s == [] then []
    else ReplaceSlash(s[..|s| - 1]) + [if s[|s| - 1] == '/' then '_' else s[|s| - 1]]
  }

  const Prefix := "price_predictor_"

  /** No character of `s` is `c`. */
  predicate Avoids(s: string, c: char) {
    forall i :: 0 <= i < |s| ==> s[i] != c
  }

  /** The part after the product: `{ohlc_window_sec}s_{forecast_steps}steps`. */
  function Suffix(windowSec: int, steps: int): (s: string)
    ensures Avoids(s, '/') && |s| >= 5 && s[|s| - 5..] == "steps"
  {
    var a, b := IntToString(windowSec), IntToString(steps);
    DecimalAvoids(a);
    DecimalAvoids(b);
    JoinAvoids(a, b);
    a + "s_" + b + "steps"
  }

  /** `f"price_predictor_{product_id.replace('/', '_')}_{ohlc_window_sec}s_{forecast_steps}steps"`. */
  function ModelName(productId: string, windowSec: int, steps: int): (name: string)
    ensures |name| > |Prefix| + |productId| && name[..|Prefix|] == Prefix
    ensures name[|Prefix|..|Prefix| + |productId|] == ReplaceSlash(productId)
    ensures |name| >= 5 && name[|name| - 5..] == "steps"
    ensures Avoids(name, '/')
  {
    var head := Prefix + ReplaceSlash(productId) + "_";
    var tail := Suffix(windowSec, steps);
    HeadFacts(ReplaceSlash(productId), tail);
    head + tail
  }

  lemma HeadFacts(id: string, tail: string)
    requires Avoids(id, '/') && Avoids(tail, '/') && |tail| >= 5
    ensures var name := Prefix + id + "_" + tail;
      && |name| > |Prefix| + |id| && name[..|Prefix|] == Prefix
      && name[|Prefix|..|Prefix| + |id|] == id
      && name[|name| - 5..] == tail[|tail| - 5..]
      && Avoids(name, '/')
  {
    var name := Prefix + id + "_" + tail;
    forall i | 0 <= i < |name|
      ensures name[i] != '/'
    {
      if i >= |Prefix| + |id| + 1 {
        assert name[i] == tail[i - |Prefix| - |id| - 1];
      } else if i >= |Prefix| {
        assert name[i] == (id + "_")[i - |Prefix|];
      }
    }
  }

  lemma JoinAvoids(a: string, b: string)
    requires Avoids(a, '/') && Avoids(b, '/')
    ensures Avoids(a + "s_" + b + "steps", '/')
  {
  }

  /** The decimal rendering of an integer has no `/` and no `s`. */
  lemma DecimalAvoids(s: string)
    requires |s| >= 1 && (AllDigits(s) || (s[0] == '-' && AllDigits(s[1..])))
    ensures Avoids(s, '/') && Avoids(s, 's')
  {
    if !AllDigits(s) {
      forall i | 1 <= i < |s|
        ensures s[i] != '/' && s[i] != 's'
      {
        assert s[1..][i - 1] == s[i];
      }
    }
  }

  /** Different integers have different renderings, so `str` can be read back. */
  lemma {:induction false} IntToStringInjective(a: int, b: int)
    requires IntToString(a) == IntToString(b)
    ensures a == b
  {
    if a >= 0 && b >= 0 {
      ParseNatToString(a);
      ParseNatToString(b);
    } else if a < 0 && b < 0 {
      assert NatToString(-a) == IntToString(a)[1..];
      ParseNatToString(-a);
      ParseNatToString(-b);
    }
  }

  /** A suffix shows its two numbers: the first ends at the first `s`. */
  lemma SuffixInjective(w1: int, s1: int, w2: int, s2: int)
    requires Suffix(w1, s1) == Suffix(w2, s2)
    ensures w1 == w2 && s1 == s2
  {
    var a1, b1, a2, b2 := IntToString(w1), IntToString(s1), IntToString(w2), IntToString(s2);
    DecimalAvoids(a1);
    DecimalAvoids(a2);
    SplitAtS(a1, b1, a2, b2);
    IntToStringInjective(w1, w2);
    IntToStringInjective(s1, s2);
  }

  lemma SplitAtS(a1: string, b1: string, a2: string, b2: string)
    requires Avoids(a1, 's') && Avoids(a2, 's')
    requires a1 + "s_" + b1 + "steps" == a2 + "s_" + b2 + "steps"
    ensures a1 == a2 && b1 == b2
  {
    var t1, t2 := a1 + "s_" + b1 + "steps", a2 + "s_" + b2 + "steps";
    FirstS(a1, b1);
    FirstS(a2, b2);
    assert |a1| == |a2|;
    assert a1 == t1[..|a1|] && a2 == t2[..|a2|];
    assert b1 == t1[|a1| + 2..|t1| - 5] && b2 == t2[|a2| + 2..|t2| - 5];
  }

  /** The first `s` of a suffix is the one after the window. */
  lemma FirstS(a: string, b: string)
    requires Avoids(a, 's')
    ensures (a + "s_" + b + "steps")[|a|] == 's'
    ensures forall i :: 0 <= i < |a| ==> (a + "s_" + b + "steps")[i] != 's'
  {
  }

  /**
   * A product's name determines the window and the number of steps: two
   * configurations of the same product never share a name, so the name can
   * serve as the registry key and as the local file name.
   */
  lemma ModelNameInjective(productId: string, w1: int, s1: int, w2: int, s2: int)
    requires ModelName(productId, w1, s1) == ModelName(productId, w2, s2)
    ensures w1 == w2 && s1 == s2
  {
    var head := Prefix + ReplaceSlash(productId) + "_";
    var t1, t2 := Suffix(w1, s1), Suffix(w2, s2);
    assert t1 == (head + t1)[|head|..];
    assert t2 == (head + t2)[|head|..];
    SuffixInjective(w1, s1, w2, s2);
  }

  /** The name the predictor uses for its BTC/USD model on one-minute candles, five steps ahead. */
  lemma ModelNameExample()
    ensures ModelName("BTC/USD", 60, 5) == "price_predictor_BTC_USD_60s_5steps"
  {
    SlashExample();
    SuffixExample();
  }

  lemma SlashExample()
    ensures ReplaceSlash("BTC/USD") == "BTC_USD"
  {
  }

  lemma SuffixExample()
    ensures Suffix(60, 5) == "60s_5steps"
  {
    assert IntToString(60) == "60";
    assert IntToString(5) == "5";
  }
}
