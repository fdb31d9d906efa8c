/** Character classes and small sequence helpers shared by the scanners. */
module Text {

  datatype Option<T> = None | Some(value: T)

  /** True when `pat` occurs in `t` starting at index `i`. */
  predicate HasAt(t: string, i: nat, pat: string) {
    i + |pat| <= |t| && t[i..i + |pat|] == pat
  }

  /** `\w` of a JavaScript regular expression without the `u` flag. */
  predicate IsWordChar(c: char) {
    ('a' <= c <= 'z') || ('A' <= c <= 'Z') || ('0' <= c <= '9') || c == '_'
  }

  /** The characters that JavaScript's `.` does not match. */
  predicate IsLineTerminator(c: char) {
    c == '\n' || c == '\r' || c == '\U{2028}' || c == '\U{2029}'
  }

  /** Index of the first c at or after i, the search `indexOf` makes. */
  function IndexOf(t: string, c: char, i: nat): (r: Option<nat>)
    requires i <= |t|
    ensures r.Some? ==> i <= r.value < |t| && t[r.value] == c
    ensures forall k :: i <= k < (if r.Some? then r.value else |t|) ==> t[k] != c
    decreases |t| - i
  {
    if i == |t| then None
    else if t[i] == c then Some(i)
    else IndexOf(t, c, i + 1)
  }

  /** The two properties above pin the search's answer down. */
  lemma {:induction false} IndexOfIs(t: string, c: char, i: nat, j: nat)
    requires i <= j < |t| && t[j] == c
    requires forall k :: i <= k < j ==> t[k] != c
    ensures IndexOf(t, c, i) == Some(j)
    decreases j - i
  {
    if i < j {
      IndexOfIs(t, c, i + 1, j);
    }
  }

  /** Text appended after the first c does not move it. */
  lemma {:induction false} IndexOfPrefix(a: string, b: string, c: char, i: nat)
    requires i <= |a| && IndexOf(a, c, i).Some?
    ensures IndexOf(a + b, c, i) == IndexOf(a, c, i)
  {
    var j := IndexOf(a, c, i).value;
    assert (a + b)[j] == a[j];
    forall k | i <= k < j ensures (a + b)[k] != c {
      assert (a + b)[k] == a[k];
    }
    IndexOfIs(a + b, c, i, j);
  }

  /** A slice of a slice is a slice of the whole. */
  lemma SliceOfSlice<T>(t: seq<T>, b: nat, e: nat, i: nat, j: nat)
    requires b <= e <= |t| && i <= j <= e - b
    ensures t[b..e][i..j] == t[b + i..b + j]
  {
    var l, r := t[b..e][i..j], t[b + i..b + j];
    forall k | 0 <= k < |l| ensures l[k] == r[k] {
      assert l[k] == t[b..e][i + k];
    }
  }

  predicate NoDuplicates<T(==)>(s: seq<T>) {
    forall i, j :: 0 <= i < j < |s| ==> s[i] != s[j]
  }
}

/**
 * The file system as the operations see it: the files of one directory
 * keyed by name, the names whose read fails with an error other than
 * "not found", and the names whose write fails.
 */
module FileSystem {

  datatype ReadResult = Contents(data: string) | NotFound | ReadFailed(name: string)

  datatype Disk = Disk(files: map<string, string>, unreadable: set<string>, unwritable: set<string>)

  function Read(d: Disk, name: string): ReadResult {
    if name in d.unreadable then ReadFailed(name)
    else if name in d.files then Contents(d.files[name])
    else NotFound
  }

  /** `fs.writeFile`: replaces the whole file, or fails and changes nothing. */
  function Write(d: Disk, name: string, content: string): Disk {
    if name in d.unwritable then d else d.(files := d.files[name := content])
  }
}
