// Facts about sequences and sets that several modules share.
module Sequences {

  // s with news laid over it from place at on.
  function Overlaid<T>(s: seq<T>, at: nat, news: seq<T>): (r: seq<T>)
    requires at + |news| <= |s|
    ensures |r| == |s|
  {
    s[..at] + news + s[at + |news|..]
  }

  lemma OverlaidOne<T>(s: seq<T>, at: nat, one: T)
    requires at < |s|
    ensures Overlaid(s, at, [one]) == s[at := one]
  {
  }

  lemma {:induction false} SubsetIsSmaller<T>(a: set<T>, b: set<T>)
    requires a <= b
    ensures |a| <= |b|
  {
    if a != {} {
      var x :| x in a;
      SubsetIsSmaller(a - {x}, b - {x});
    }
  }
}
