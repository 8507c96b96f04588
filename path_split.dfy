/**
 * `str::split("/")` and the iterator over its pieces that the emitted `route`
 * advances with `segments.next()`.
 */
module PathSplit {
  import opened Wrappers

  const Sep: char := '/'

  /** True when `s` holds no separator, as every piece of a split does. */
  predicate NoSep(s: string) {
    Sep !in s
  }

  /**
   * The pieces of `s` between separators, in order, keeping empty pieces
   * (leading, trailing and consecutive separators). Like `str::split`, it
   * always yields at least one piece: the empty string splits into `[""]`.
   */
  function Split(s: string): (r: seq<string>)
    ensures |r| >= 1
    ensures forall i :: 0 <= i < |r| ==> NoSep(r[i])
    ensures Join(r) == s
    decreases |s|
  {
    if s == [] then [""]
    else if s[0] == Sep then [""] + Split(s[1..])
    else
      var t := Split(s[1..]);
      [[s[0]] + t[0]] + t[1..]
  }

  /** The pieces glued back together with one separator between neighbours. */
  function Join(parts: seq<string>): string
    requires |parts| >= 1
  {
    if |parts| == 1 then parts[0] else parts[0] + [Sep] + Join(parts[1..])
  }

  /** A separator-free prefix stays glued to the first piece. */
  lemma {:induction false} SplitPrefix(p: string, s: string)
    requires NoSep(p)
    ensures Split(p + s) == [p + Split(s)[0]] + Split(s)[1..]
    decreases |p|
  {
    if p != [] {
      assert (p + s)[1..] == p[1..] + s;
      SplitPrefix(p[1..], s);
      assert [p[0]] + (p[1..] + Split(s)[0]) == p + Split(s)[0];
    } else {
      assert p + s == s;
      assert p + Split(s)[0] == Split(s)[0];
      assert Split(s) == [Split(s)[0]] + Split(s)[1..];
    }
  }

  /** Splitting undoes joining whenever no piece holds a separator. */
  lemma {:induction false} SplitJoin(parts: seq<string>)
    requires |parts| >= 1
    requires forall i :: 0 <= i < |parts| ==> NoSep(parts[i])
    ensures Split(Join(parts)) == parts
  {
    if |parts| == 1 {
      SplitPrefix(parts[0], "");
      assert parts[0] + "" == parts[0];
    } else {
      var rest := Join(parts[1..]);
      SplitJoin(parts[1..]);
      assert parts[0] + [Sep] + rest == parts[0] + ([Sep] + rest);
      SplitPrefix(parts[0], [Sep] + rest);
      assert ([Sep] + rest)[1..] == rest;
      assert parts[0] + "" == parts[0];
      assert parts == [parts[0]] + parts[1..];
    }
  }

  /**
   * The `Split` iterator over one path: the pieces and a cursor at the next
   * piece to hand out. Once the pieces are used up it keeps answering `None`.
   */
  class Segments {
    const parts: seq<string>
    var pos: nat

    ghost predicate Valid()
      reads this
    {
      pos <= |parts|
    }

    /** `path.split("/")`: nothing handed out yet. */
    constructor (path: string)
      ensures Valid()
      ensures parts == Split(path) && pos == 0
    {
      parts := Split(path);
      pos := 0;
    }

    /** `segments.next()`. */
    method Next() returns (s: Option<string>)
      requires Valid()
      modifies this
      ensures Valid()
      ensures (s, pos) == Read(parts, old(pos))
    {
      if pos < |parts| {
        s := Some(parts[pos]);
        pos := pos + 1;
      } else {
        s := None;
      }
    }
  }

  /**
   * What `next()` gives at cursor `pos`, and where the cursor is afterwards:
   * the piece at `pos` and one step on, or `None` and no move at the end.
   */
  function Read(parts: seq<string>, pos: nat): (r: (Option<string>, nat))
    requires pos <= |parts|
    ensures r.1 <= |parts|
    ensures r.0.Some? <==> pos < |parts|
    ensures r.0.Some? ==> r.0.value == parts[pos] && r.1 == pos + 1
    ensures r.0.None? ==> r.1 == pos
  {
    if pos < |parts| then (Some(parts[pos]), pos + 1) else (None, pos)
  }
}
