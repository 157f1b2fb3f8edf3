/**
  * SQLite's `LIKE` operator as the record store evaluates
  * `MIRMaster.mir_number.like(pattern)`: `%` matches any run of
  * characters, `_` matches exactly one, every other pattern character
  * matches itself with ASCII letters compared case-insensitively, and
  * there is no escape character.
  */
module SqlLike {
  import opened Text

  function FoldAscii(c: char): char {
    if 'A' <= c <= 'Z' then ((c as int) + 32) as char else c
  }

  predicate Like(s: string, p: string)
    decreases |s| + |p|
  {
    if |p| == 0 then |s| == 0
    else if p[0] == '%' then Like(s, p[1..]) || (|s| > 0 && Like(s[1..], p))
    else if p[0] == '_' then |s| > 0 && Like(s[1..], p[1..])
    else |s| > 0 && FoldAscii(s[0]) == FoldAscii(p[0]) && Like(s[1..], p[1..])
  }

  /**
    * `-` is neither a wildcard nor a letter, so every `-` of the pattern
    * must be matched by a `-` of the string: a match never has fewer dashes
    * than its pattern.
    */
  lemma {:induction false} LikeKeepsDashes(s: string, p: string)
    requires Like(s, p)
    ensures Count(p, '-') <= Count(s, '-')
    decreases |s| + |p|
  {
    if |p| == 0 {
    } else if p[0] == '%' {
      if Like(s, p[1..]) {
        LikeKeepsDashes(s, p[1..]);
      } else {
        LikeKeepsDashes(s[1..], p);
      }
    } else if p[0] == '_' {
      LikeKeepsDashes(s[1..], p[1..]);
    } else {
      assert p[0] == '-' ==> s[0] == '-';
      LikeKeepsDashes(s[1..], p[1..]);
    }
  }

  /**
    * Any prefix followed by `%` matches that prefix followed by anything:
    * each `%` or `_` of the prefix can stand for its own character, and
    * every other character matches itself.
    */
  lemma {:induction false} LikePrefix(t: string, x: string)
    ensures Like(t + x, t + "%")
    decreases |t| + |x|
  {
    if |t| == 0 {
      assert t + "%" == "%";
      if |x| == 0 {
        assert Like(x, ""[..]);
      } else {
        LikePrefix(t, x[1..]);
        assert t + x[1..] == x[1..] && t + x == x;
        assert Like(x[1..], "%");
        assert Like(x, "%");
      }
    } else {
      var s, p := t + x, t + "%";
      assert p[1..] == t[1..] + "%";
      assert s[1..] == t[1..] + x;
      LikePrefix(t[1..], x);
      assert Like(s[1..], p[1..]);
      if p[0] == '%' {
        assert Like(s[1..], p);
      }
    }
  }
}
