/** The asset catalog of game_asset_catalog.cpp: a fixed table of up to 16 search
    paths of 64 characters each, filled in order, and the lookup that tries
    `path + "/" + file_name` for each path in turn until the file exists. Whether a
    file exists is a question for the file system; here it is a parameter. */
module AssetCatalog {
  import opened Base

  const MAX_PATHS: int := 16
  const PATH_LEN: int := 64
  /** Size of the search buffer in `asset_catalog_find`. */
  const BUFF_LEN: int := 128

  /** `cstr_concat(buff, s)`: finds the end of the text in `buff` and copies the text
      of `s` after it, followed by a NUL. The C code does not check the buffer's size,
      so both texts and the NUL must fit. */
  method CStrConcat(buff: array<char>, s: seq<char>)
    requires NUL in buff[..] && NUL in s
    requires StrLen(buff[..]) + StrLen(s) < buff.Length
    modifies buff
    ensures NUL in buff[..] && CStr(buff[..]) == CStr(old(buff[..])) + CStr(s)
    ensures var n, m := StrLen(old(buff[..])), StrLen(s);
            forall k :: 0 <= k < buff.Length ==>
              buff[k] == if n <= k < n + m then s[k - n] else if k == n + m then NUL
                         else old(buff[k])
  {
    ghost var b0 := buff[..];
    var start := TextEnd(buff);
    var dest := CopyText(buff, start, s);
    buff[dest] := NUL;
    ghost var r := buff[..];
    assert forall k :: 0 <= k < start ==> r[k] == b0[k];
    assert forall k :: start <= k < dest ==> r[k] == s[k - start];
    CStrJoin(r, b0, s);
  }

  /** The second loop of `cstr_concat`: the text of `s` is copied to `buff` from
      `start` on, without its NUL; answers the position after the copy. */
  method CopyText(buff: array<char>, start: nat, s: seq<char>) returns (dest: nat)
    requires NUL in s && start + StrLen(s) < buff.Length
    modifies buff
    ensures dest == start + StrLen(s)
    ensures forall k :: 0 <= k < buff.Length ==>
              buff[k] == if start <= k < dest then s[k - start] else old(buff[k])
  {
    dest := start;
    var src := 0;
    while s[src] != NUL
      invariant src <= StrLen(s) && dest == start + src
      invariant forall k :: 0 <= k < buff.Length ==>
                  buff[k] == if start <= k < dest then s[k - start] else old(buff[k])
      decreases StrLen(s) - src
    {
      buff[dest] := s[src];
      dest := dest + 1;
      src := src + 1;
    }
  }

  /** A sequence that holds the text of `a`, then the text of `b`, then a NUL reads
      back as the two texts joined. */
  lemma CStrJoin(r: seq<char>, a: seq<char>, b: seq<char>)
    requires NUL in a && NUL in b && StrLen(a) + StrLen(b) < |r|
    requires forall k :: 0 <= k < StrLen(a) ==> r[k] == a[k]
    requires forall k :: StrLen(a) <= k < StrLen(a) + StrLen(b) ==> r[k] == b[k - StrLen(a)]
    requires r[StrLen(a) + StrLen(b)] == NUL
    ensures NUL in r && CStr(r) == CStr(a) + CStr(b)
  {
    var t := CStr(a) + CStr(b);
    forall k | 0 <= k < |t| ensures r[k] == t[k] {
      if k < |CStr(a)| {
        assert t[k] == CStr(a)[k];
      } else {
        assert t[k] == CStr(b)[k - |CStr(a)|];
      }
    }
    CStrFrom(r, t);
  }

  /** The first loop of `cstr_concat`: the index of the NUL that ends the text. */
  method TextEnd(buff: array<char>) returns (n: nat)
    requires NUL in buff[..]
    ensures n == StrLen(buff[..])
  {
    n := 0;
    while buff[n] != NUL
      invariant n <= StrLen(buff[..])
      decreases StrLen(buff[..]) - n
    {
      n := n + 1;
    }
  }

  /** `cstr_copy(dest, src)`: copies the text of `src` and its NUL to the front of
      `dest`; the rest of `dest` is left as it was. */
  method CStrCopy(dest: array<char>, src: seq<char>)
    requires NUL in src && StrLen(src) < dest.Length
    modifies dest
    ensures NUL in dest[..] && CStr(dest[..]) == CStr(src)
    ensures forall k :: 0 <= k < dest.Length ==>
              dest[k] == if k < StrLen(src) then src[k] else if k == StrLen(src) then NUL
                         else old(dest[k])
  {
    var at := 0;
    while src[at] != NUL
      invariant at <= StrLen(src)
      invariant forall k :: 0 <= k < dest.Length ==>
                  dest[k] == if k < at then src[k] else old(dest[k])
      decreases StrLen(src) - at
    {
      dest[at] := src[at];
      at := at + 1;
    }
    dest[at] := NUL;
    forall k | 0 <= k < at ensures dest[..][k] == CStr(src)[k] {
    }
    CStrFrom(dest[..], CStr(src));
  }

  /** `Asset_Catalog`. */
  class Catalog {
    const paths: array2<char>
    var count: int

    /** The characters of slot `i`. */
    function Row(i: int): (r: seq<char>)
      requires 0 <= i < paths.Length0
      reads paths
      ensures |r| == paths.Length1 && forall j :: 0 <= j < |r| ==> r[j] == paths[i, j]
    {
      seq(paths.Length1, j requires 0 <= j < paths.Length1 reads paths => paths[i, j])
    }

    /** The table has its fixed shape, and every filled slot holds a C string. */
    predicate Valid()
      reads this, paths
    {
      paths.Length0 == MAX_PATHS && paths.Length1 == PATH_LEN
      && 0 <= count <= MAX_PATHS
      && forall i :: 0 <= i < count ==> NUL in Row(i)
    }

    /** A zero-initialised catalog, as the global one starts out. */
    constructor Zeroed()
      ensures Valid() && count == 0 && fresh(paths)
      ensures forall i, j :: 0 <= i < MAX_PATHS && 0 <= j < PATH_LEN ==> paths[i, j] == NUL
    {
      paths := new char[MAX_PATHS, PATH_LEN]((i, j) => NUL);
      count := 0;
    }

    /** `asset_catalog_init`: the whole catalog is zeroed. */
    method Init()
      requires Valid()
      modifies this, paths
      ensures Valid() && count == 0
      ensures forall i, j :: 0 <= i < MAX_PATHS && 0 <= j < PATH_LEN ==> paths[i, j] == NUL
    {
      forall i, j | 0 <= i < MAX_PATHS && 0 <= j < PATH_LEN {
        paths[i, j] := NUL;
      }
      count := 0;
    }

    /** `asset_catalog_add(path)`: copies the text of `path` and a NUL into the next
        slot and counts it. The C code checks neither the number of slots nor the
        length of the path. */
    method Add(path: seq<char>)
      requires Valid() && count < MAX_PATHS && NUL in path && StrLen(path) < PATH_LEN
      modifies this, paths
      ensures Valid() && count == old(count) + 1
      ensures CStr(Row(old(count))) == CStr(path)
      ensures forall i, j :: 0 <= i < MAX_PATHS && 0 <= j < PATH_LEN ==>
                paths[i, j] == if i == old(count) && j <= StrLen(path) then path[j]
                               else old(paths[i, j])
    {
      var n := count;
      CopyToRow(n, path);
      count := count + 1;
      forall i | 0 <= i < n ensures NUL in Row(i) {
        assert Row(i) == old(Row(i));
      }
      CStrFrom(Row(n), CStr(path));
    }

    /** The copy loop of `asset_catalog_add`: the text of `path` and its NUL go to the
        front of slot `n`. */
    method CopyToRow(n: int, path: seq<char>)
      requires paths.Length0 == MAX_PATHS && paths.Length1 == PATH_LEN && 0 <= n < MAX_PATHS
      requires NUL in path && StrLen(path) < PATH_LEN
      modifies paths
      ensures forall i, j :: 0 <= i < MAX_PATHS && 0 <= j < PATH_LEN ==>
                paths[i, j] == if i == n && j <= StrLen(path) then path[j]
                               else old(paths[i, j])
    {
      var at := 0;
      while path[at] != NUL
        invariant at <= StrLen(path)
        invariant forall i, j :: 0 <= i < MAX_PATHS && 0 <= j < PATH_LEN ==>
                    paths[i, j] == if i == n && j < at then path[j] else old(paths[i, j])
        decreases StrLen(path) - at
      {
        paths[n, at] := path[at];
        at := at + 1;
      }
      paths[n, at] := NUL;
    }

    /** The name tried for slot `i`: the slot's text, a slash, and the file name. It
        holds no NUL, so written out with its terminator it reads back whole. */
    function Candidate(i: int, fileName: seq<char>): (r: seq<char>)
      requires Valid() && 0 <= i < count && NUL in fileName
      reads this, paths
      ensures NUL !in r && |r| == StrLen(Row(i)) + 1 + StrLen(fileName)
      ensures r[StrLen(Row(i))] == '/'
    {
      CStr(Row(i)) + "/" + CStr(fileName)
    }

    /** One pass of the search loop: the buffer is emptied, then the slot's text, a
        slash and the file name are appended. */
    method BuildCandidate(buff: array<char>, i: int, fileName: seq<char>)
      requires Valid() && 0 <= i < count && NUL in fileName && buff.Length >= 1
      requires |Candidate(i, fileName)| < buff.Length
      modifies buff
      ensures NUL in buff[..] && CStr(buff[..]) == Candidate(i, fileName)
    {
      buff[0] := NUL;
      assert CStr(buff[..]) == [] by {
        assert buff[..][0] == NUL;
      }
      CStrConcat(buff, Row(i));
      assert CStr(buff[..]) == CStr(Row(i));
      CStrFrom("/\0", "/");
      CStrConcat(buff, "/\0");
      assert CStr(buff[..]) == CStr(Row(i)) + "/";
      CStrConcat(buff, fileName);
    }

    /** One pass of the search loop of `asset_catalog_find`: builds slot `i`'s
        candidate in `buff` and, when it exists, copies it into `result`. */
    method Try(buff: array<char>, i: int, fileName: seq<char>, result: array<char>,
               fileExists: seq<char> -> bool) returns (hit: bool)
      requires Valid() && 0 <= i < count && NUL in fileName && buff.Length >= 1
      requires |Candidate(i, fileName)| < buff.Length && |Candidate(i, fileName)| < result.Length
      requires buff != result
      modifies buff, result
      ensures hit == fileExists(Candidate(i, fileName))
      ensures hit ==> NUL in result[..] && CStr(result[..]) == Candidate(i, fileName)
      ensures hit ==> forall k :: |Candidate(i, fileName)| < k < result.Length ==> result[k] == old(result[k])
      ensures !hit ==> result[..] == old(result[..])
    {
      BuildCandidate(buff, i, fileName);
      hit := fileExists(CStr(buff[..]));
      if hit {
        CStrCopy(result, buff[..]);
      }
    }

    /** `asset_catalog_find(file_name, result)`: tries the slots in the order they were
        added. On the first candidate that exists, copies it with its NUL into
        `result` and answers true; if none exists, answers false and leaves `result`
        alone. Every candidate must fit the 128-character search buffer and `result`:
        the C code appends without a bound, so a longer candidate writes past `buff`,
        and this precondition demands the fit of every slot, not only of those tried
        before the first hit. */
    method Find(fileName: seq<char>, result: array<char>, fileExists: seq<char> -> bool)
      returns (found: bool, ghost at: int)
      requires Valid() && NUL in fileName
      requires forall i :: 0 <= i < count ==>
                 |Candidate(i, fileName)| < BUFF_LEN && |Candidate(i, fileName)| < result.Length
      modifies result
      ensures found <==> exists i :: 0 <= i < count && fileExists(Candidate(i, fileName))
      ensures found ==>
        0 <= at < count && fileExists(Candidate(at, fileName))
        && (forall j :: 0 <= j < at ==> !fileExists(Candidate(j, fileName)))
        && NUL in result[..] && CStr(result[..]) == Candidate(at, fileName)
        && forall k :: |Candidate(at, fileName)| < k < result.Length ==> result[k] == old(result[k])
      ensures !found ==> result[..] == old(result[..])
    {
      var buff := new char[BUFF_LEN](_ => NUL);
      var i := 0;
      while i < count
        invariant 0 <= i <= count
        invariant forall j :: 0 <= j < i ==> !fileExists(Candidate(j, fileName))
        invariant result[..] == old(result[..])
      {
        found := Try(buff, i, fileName, result, fileExists);
        if found {
          return true, i;
        }
        i := i + 1;
      }
      return false, count;
    }
  }
}
