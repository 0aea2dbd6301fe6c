/**
  Splitting a hostname into its dot-separated labels, and the two names the
  analysis derives from them: the top-level domain (the last label) and the
  second-level domain (the last two labels joined by a dot).

  `Split` is Python's `str.split('.')`: it always yields at least one label,
  and empty labels are kept ("a..b" has three labels, "a." has two).
*/
module Hostname {

  /** `s` ends with `suffix`. */
  predicate IsSuffix(suffix: string, s: string) {
    |suffix| <= |s| && s[|s| - |suffix|..] == suffix
  }

  /** The labels of `s` between the dots, left to right. */
  function Split(s: string): (labels: seq<string>)
    ensures |labels| >= 1
    ensures forall i :: 0 <= i < |labels| ==> '.' !in labels[i]
    decreases |s|
  {
    if s == [] then [""]
    else
      var init := Split(s[..|s| - 1]);
      var c := s[|s| - 1];
      if c == '.' then init + [""]
      else init[..|init| - 1] + [init[|init| - 1] + [c]]
  }

  /** The inverse of `Split`: the labels glued back together with dots. */
  function Join(labels: seq<string>): string
    requires |labels| >= 1
    decreases |labels|
  {
    if |labels| == 1 then labels[0]
    else Join(labels[..|labels| - 1]) + "." + labels[|labels| - 1]
  }

  /** Joining the labels of a hostname gives the hostname back. */
  lemma {:induction false} JoinSplit(s: string)
    ensures Join(Split(s)) == s
    decreases |s|
  {
    if s != [] {
      var prefix := s[..|s| - 1];
      var c := s[|s| - 1];
      JoinSplit(prefix);
      assert s == prefix + [c];
      if c == '.' {
        JoinAppendLabel(Split(prefix), "");
      } else {
        JoinExtendLast(Split(prefix), c);
      }
    }
  }

  /** A new last label goes after a dot. */
  lemma JoinAppendLabel(labels: seq<string>, part: string)
    requires |labels| >= 1
    ensures Join(labels + [part]) == Join(labels) + "." + part
  {
    var extended := labels + [part];
    assert extended[..|extended| - 1] == labels;
  }

  /** A character added to the last label ends the joined name. */
  lemma JoinExtendLast(labels: seq<string>, c: char)
    requires |labels| >= 1
    ensures
      var m := |labels|;
      Join(labels[..m - 1] + [labels[m - 1] + [c]]) == Join(labels) + [c]
  {
    var m := |labels|;
    var extended := labels[..m - 1] + [labels[m - 1] + [c]];
    if m > 1 {
      assert extended[..m - 1] == labels[..m - 1];
      var front := Join(labels[..m - 1]);
      assert (front + "." + labels[m - 1]) + [c] == front + "." + (labels[m - 1] + [c]);
    }
  }

  /** Splitting `prefix + "." + part` adds `part` after the labels of `prefix`. */
  lemma {:induction false} SplitAppendLabel(prefix: string, part: string)
    requires '.' !in part
    ensures Split(prefix + "." + part) == Split(prefix) + [part]
    decreases |part|
  {
    var s := prefix + "." + part;
    if part == [] {
      assert s[..|s| - 1] == prefix;
    } else {
      var shorter := part[..|part| - 1];
      assert s[..|s| - 1] == prefix + "." + shorter;
      assert part == shorter + [part[|part| - 1]];
      SplitAppendLabel(prefix, shorter);
    }
  }

  /** A string without a dot is a single label. */
  lemma {:induction false} SplitSingleLabel(part: string)
    requires '.' !in part
    ensures Split(part) == [part]
    decreases |part|
  {
    if part != [] {
      var shorter := part[..|part| - 1];
      assert part == shorter + [part[|part| - 1]];
      SplitSingleLabel(shorter);
    }
  }

  /** Splitting dot-free labels joined with dots gives the labels back. */
  lemma {:induction false} SplitJoin(labels: seq<string>)
    requires |labels| >= 1
    requires forall i :: 0 <= i < |labels| ==> '.' !in labels[i]
    ensures Split(Join(labels)) == labels
    decreases |labels|
  {
    if |labels| == 1 {
      SplitSingleLabel(labels[0]);
    } else {
      var last := labels[|labels| - 1];
      var init := labels[..|labels| - 1];
      assert forall i :: 0 <= i < |init| ==> init[i] == labels[i];
      SplitJoin(init);
      assert Join(labels) == Join(init) + "." + last;
      SplitAppendLabel(Join(init), last);
      assert init + [last] == labels;
    }
  }

  /** A hostname has two labels or more exactly when it contains a dot. */
  lemma {:induction false} TwoLabelsIffDot(s: string)
    ensures |Split(s)| >= 2 <==> '.' in s
    decreases |s|
  {
    if s != [] {
      var c := s[|s| - 1];
      TwoLabelsIffDot(s[..|s| - 1]);
      assert s == s[..|s| - 1] + [c];
    }
  }

  /** The last label of a joined name is a suffix of it, preceded by a dot unless it is the whole name. */
  lemma LastLabelIsSuffix(labels: seq<string>)
    requires |labels| >= 1
    ensures IsSuffix(labels[|labels| - 1], Join(labels))
    ensures |labels| == 1 ==> Join(labels) == labels[0]
    ensures |labels| >= 2 ==>
      var s, last := Join(labels), labels[|labels| - 1];
      |last| < |s| && s[|s| - |last| - 1] == '.'
  {
  }

  /** The last two labels of a joined name, with their dot, are a suffix of it, preceded by a dot unless they are the whole name. */
  lemma LastTwoLabelsAreSuffix(labels: seq<string>)
    requires |labels| >= 2
    ensures
      var s, d := Join(labels), labels[|labels| - 2] + "." + labels[|labels| - 1];
      IsSuffix(d, s) && (|labels| == 2 ==> s == d) && (|labels| > 2 ==> |d| < |s| && s[|s| - |d| - 1] == '.')
  {
    var n := |labels|;
    var d := labels[n - 2] + "." + labels[n - 1];
    var init := labels[..n - 1];
    assert init[..n - 2] == labels[..n - 2];
    if n > 2 {
      assert Join(labels) == Join(labels[..n - 2]) + "." + d;
    }
  }

  /**
    The top-level domain: the last label of the hostname
    (analyse_fichier_HAR.py line 154, etapes_preliminaires.py line 14).
    It is the longest suffix of the hostname without a dot.
  */
  function Tld(hostname: string): (tld: string)
    ensures '.' !in tld
    ensures IsSuffix(tld, hostname)
    ensures |tld| < |hostname| ==> hostname[|hostname| - |tld| - 1] == '.'
  {
    var labels := Split(hostname);
    JoinSplit(hostname);
    LastLabelIsSuffix(labels);
    labels[|labels| - 1]
  }

  /** Only one string has the three properties `Tld` promises, so they define it. */
  lemma TldUnique(hostname: string, t: string)
    requires '.' !in t
    requires IsSuffix(t, hostname)
    requires |t| < |hostname| ==> hostname[|hostname| - |t| - 1] == '.'
    ensures t == Tld(hostname)
  {
    // Both are suffixes, so the shorter one ends the longer; a dot sits just
    // before the shorter one, which would put it inside the longer one.
  }

  /**
    The second-level domain: the second-to-last label, a dot and the
    top-level domain (analyse_fichier_HAR.py line 156, etapes_preliminaires.py
    line 16). Python raises IndexError on a hostname with a single label, so
    the hostname must contain a dot. It is a suffix of the hostname that ends
    with "." + tld, has no other dot, and starts the hostname or follows a dot.
  */
  function SecondLevelDomain(hostname: string): (domain: string)
    requires '.' in hostname
    ensures IsSuffix(domain, hostname)
    ensures IsSuffix("." + Tld(hostname), domain)
    ensures '.' !in domain[..|domain| - |Tld(hostname)| - 1]
    ensures |domain| < |hostname| ==> hostname[|hostname| - |domain| - 1] == '.'
  {
    var labels := Split(hostname);
    SecondLevelDomainIsSuffix(hostname);
    labels[|labels| - 2] + "." + Tld(hostname)
  }

  /** The facts `SecondLevelDomain` promises, proved from the labels of the hostname. */
  lemma SecondLevelDomainIsSuffix(hostname: string)
    requires '.' in hostname
    ensures |Split(hostname)| >= 2
    ensures
      var labels := Split(hostname);
      var tld, domain := Tld(hostname), labels[|labels| - 2] + "." + Tld(hostname);
      && IsSuffix(domain, hostname)
      && IsSuffix("." + tld, domain)
      && domain[..|domain| - |tld| - 1] == labels[|labels| - 2]
      && (|domain| < |hostname| ==> hostname[|hostname| - |domain| - 1] == '.')
  {
    var labels := Split(hostname);
    var n := |labels|;
    TwoLabelsIffDot(hostname);
    JoinSplit(hostname);
    var tld := labels[n - 1];
    assert Tld(hostname) == tld;
    LastTwoLabelsAreSuffix(labels);
    DottedPair(labels[n - 2], tld);
  }

  /** In `part + "." + last`, the dot and `last` close the string and `part` comes before them. */
  lemma DottedPair(part: string, last: string)
    ensures
      var d := part + "." + last;
      IsSuffix("." + last, d) && d[..|d| - |last| - 1] == part
  {
    var d := part + "." + last;
    assert d == part + ("." + last);
  }

  /** The worked example of the comment: www.elysee.fr has top-level domain fr and domain elysee.fr. */
  lemma ElyseeExample()
    ensures Tld("www.elysee.fr") == "fr"
    ensures SecondLevelDomain("www.elysee.fr") == "elysee.fr"
  {
    var h := "www.elysee.fr";
    SplitJoin(["www", "elysee", "fr"]);
    assert Join(["www", "elysee", "fr"]) == h;
  }

  /** The test hostname www.sydney.edu.au: top-level domain au, domain edu.au (the public-suffix list is not consulted). */
  lemma SydneyExample()
    ensures Tld("www.sydney.edu.au") == "au"
    ensures SecondLevelDomain("www.sydney.edu.au") == "edu.au"
  {
    var labels := ["www", "sydney", "edu", "au"];
    assert labels[..3] == ["www", "sydney", "edu"];
    assert labels[..3][..2] == ["www", "sydney"];
    assert labels[..3][..2][..1] == ["www"];
    assert Join(["www", "sydney"]) == "www.sydney";
    assert Join(labels[..3]) == "www.sydney.edu";
    SplitJoin(labels);
    assert Join(labels) == "www.sydney.edu.au";
  }
}
