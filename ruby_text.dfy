/**
 * The few pieces of Ruby's String and Array behaviour that the polymorphic
 * interface relies on: `downcase`, `join`, `gsub(/_id$/, '')` and `inspect`.
 */
module RubyText {

  predicate IsUpper(c: char) {
    'A' <= c <= 'Z'
  }

  /** `String#downcase` on one character (ASCII letters only). */
  function DowncaseChar(c: char): (d: char)
    ensures !IsUpper(d)
    ensures !IsUpper(c) ==> d == c
    ensures IsUpper(c) ==> d as int == c as int + 32
  {
    if IsUpper(c) then (c as int + 32) as char else c
  }

  /** `String#downcase`: every upper-case ASCII letter becomes lower case. */
  function Downcase(s: string): (r: string)
    ensures |r| == |s|
    ensures forall i :: 0 <= i < |r| ==> !IsUpper(r[i])
    ensures forall i :: 0 <= i < |s| && !IsUpper(s[i]) ==> r[i] == s[i]
    ensures forall i :: 0 <= i < |s| && IsUpper(s[i]) ==> r[i] as int == s[i] as int + 32
  {
    seq(|s|, i requires 0 <= i < |s| => DowncaseChar(s[i]))
  }

  /** `Array#join(sep)` on strings. */
  function Join(xs: seq<string>, sep: string): (r: string)
    ensures xs == [] ==> r == []
    decreases |xs|
  {
    if xs == [] then []
    else if |xs| == 1 then xs[0]
    else xs[0] + sep + Join(xs[1..], sep)
  }

  /** `p` occurs inside `s` starting at offset `k`. */
  ghost predicate InfixAt(p: string, s: string, k: int) {
    0 <= k <= |s| - |p| && s[k..k + |p|] == p
  }

  /** `p` occurs somewhere inside `s`. */
  ghost predicate IsInfix(p: string, s: string) {
    exists k :: InfixAt(p, s, k)
  }

  /** Anything inside the middle of a concatenation is inside the whole. */
  lemma InfixOfConcat(p: string, l: string, m: string, r: string)
    requires IsInfix(p, m)
    ensures IsInfix(p, l + m + r)
  {
    var k :| InfixAt(p, m, k);
    var s := l + m + r;
    assert s[|l| + k..|l| + k + |p|] == m[k..k + |p|];
    assert InfixAt(p, s, |l| + k);
  }

  /** Every element of a joined list occurs in the joined text. */
  lemma {:induction false} JoinMentionsEach(xs: seq<string>, sep: string, i: nat)
    requires i < |xs|
    ensures IsInfix(xs[i], Join(xs, sep))
    decreases |xs|
  {
    if |xs| == 1 {
      assert Join(xs, sep)[0..|xs[0]|] == xs[0];
      assert InfixAt(xs[0], Join(xs, sep), 0);
    } else if i == 0 {
      var s := Join(xs, sep);
      assert s == xs[0] + (sep + Join(xs[1..], sep));
      assert s[0..|xs[0]|] == xs[0];
      assert InfixAt(xs[0], s, 0);
    } else {
      JoinMentionsEach(xs[1..], sep, i - 1);
      InfixOfConcat(xs[i], xs[0] + sep, Join(xs[1..], sep), []);
      assert xs[0] + sep + Join(xs[1..], sep) + [] == Join(xs, sep);
    }
  }

  /** `String#inspect` of a name: the name between double quotes. */
  function Quote(s: string): (q: string)
    ensures |q| == |s| + 2 && q[0] == q[|q| - 1] == '"'
    ensures q[1..|q| - 1] == s
  {
    "\"" + s + "\""
  }

  /** `Array#inspect` of a list of names, e.g. `["dog", "cat"]`. */
  function Inspect(xs: seq<string>): (r: string)
    ensures |r| >= 2 && r[0] == '[' && r[|r| - 1] == ']'
  {
    "[" + Join(Quoted(xs), ", ") + "]"
  }

  function Quoted(xs: seq<string>): (qs: seq<string>)
    ensures |qs| == |xs|
    ensures forall i :: 0 <= i < |xs| ==> qs[i] == Quote(xs[i])
  {
    seq(|xs|, i requires 0 <= i < |xs| => Quote(xs[i]))
  }

  /** A quoted name occurring in a text means the name occurs in it. */
  lemma InfixOfQuoted(x: string, s: string)
    requires IsInfix(Quote(x), s)
    ensures IsInfix(x, s)
  {
    var q := Quote(x);
    var k :| InfixAt(q, s, k);
    forall c | 0 <= c < |x| ensures s[k + 1 + c] == x[c] {
      assert s[k + 1 + c] == s[k..k + |q|][1 + c] == q[1 + c];
    }
    assert s[k + 1..k + 1 + |x|] == x;
    assert InfixAt(x, s, k + 1);
  }

  /** The inspected list names every element. */
  lemma InspectMentionsEach(xs: seq<string>, i: nat)
    requires i < |xs|
    ensures IsInfix(xs[i], Inspect(xs))
  {
    var joined := Join(Quoted(xs), ", ");
    JoinMentionsEach(Quoted(xs), ", ", i);
    InfixOfQuoted(xs[i], joined);
    InfixOfConcat(xs[i], "[", joined, "]");
  }

  /**
   * `gsub(/_id$/, '')`: removes every "_id" that ends the string or stands
   * just before a line break (Ruby's `$` matches at both).
   */
  function StripId(s: string): (r: string)
    ensures |r| <= |s|
    decreases |s|
  {
    if |s| < 3 then s
    else if s[..3] == "_id" && (|s| == 3 || s[3] == '\n') then StripId(s[3..])
    else [s[0]] + StripId(s[1..])
  }

  /** Appending "_id" and stripping it again gives the name back. */
  lemma {:induction false} StripIdOfKey(a: string)
    requires '\n' !in a
    ensures StripId(a + "_id") == a
    decreases |a|
  {
    var s := a + "_id";
    if a == [] {
      assert s == "_id";
    } else {
      assert s[3] != '\n' by {
        if |a| > 3 { assert s[3] == a[3]; }
        else { assert s[3] == "_id"[3 - |a|]; }
      }
      assert s[1..] == a[1..] + "_id";
      StripIdOfKey(a[1..]);
      assert [a[0]] + a[1..] == a;
    }
  }
}
