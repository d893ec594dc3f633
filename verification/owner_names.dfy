/**
  The `ownerNameString` annotation that the traversal attaches to every entry:
  the owner names joined with commas, as Python's `",".join(names)` does.
  `Split` is Python's `s.split(",")`; it is here only as the inverse that says
  what the joined string keeps of the names.
 */
module OwnerNames {

  /** Python `",".join(names)`. */
  function Join(names: seq<string>): string
    decreases |names|
  {
    if |names| == 0 then ""
    else if |names| == 1 then names[0]
    else names[0] + "," + Join(names[1..])
  }

  /** Python `s.split(",")`: always at least one part, empty parts kept. */
  function Split(s: string): (parts: seq<string>)
    ensures |parts| >= 1
  {
    if |s| == 0 then [""]
    else
      var rest := Split(s[1..]);
      if s[0] == ',' then [""] + rest
      else [[s[0]] + rest[0]] + rest[1..]
  }

  predicate CommaFree(name: string) {
    forall i :: 0 <= i < |name| ==> name[i] != ','
  }

  predicate AllCommaFree(names: seq<string>) {
    forall i :: 0 <= i < |names| ==> CommaFree(names[i])
  }

  /** A name without commas splits into itself. */
  lemma {:induction false} SplitCommaFree(a: string)
    requires CommaFree(a)
    ensures Split(a) == [a]
  {
    if |a| > 0 {
      SplitCommaFree(a[1..]);
      assert [a[0]] + a[1..] == a;
    }
  }

  /** Splitting a comma-free name followed by a comma peels off exactly that name. */
  lemma {:induction false} SplitAfterName(a: string, t: string)
    requires CommaFree(a)
    ensures Split(a + "," + t) == [a] + Split(t)
  {
    var s := a + "," + t;
    if |a| == 0 {
      assert s == "," + t;
      assert s[1..] == t;
    } else {
      assert s[1..] == a[1..] + "," + t;
      SplitAfterName(a[1..], t);
      assert [a[0]] + a[1..] == a;
    }
  }

  /**
    The joined owner string determines the owner names: splitting it on commas
    gives the names back, provided there is at least one name and no name holds
    a comma.
   */
  lemma {:induction false} SplitJoin(names: seq<string>)
    requires |names| >= 1
    requires AllCommaFree(names)
    ensures Split(Join(names)) == names
  {
    if |names| == 1 {
      SplitCommaFree(names[0]);
    } else {
      assert CommaFree(names[0]);
      SplitAfterName(names[0], Join(names[1..]));
      SplitJoin(names[1..]);
      assert [names[0]] + names[1..] == names;
    }
  }

  /** With no owners the annotation is empty, and it does not split back to no names. */
  lemma JoinEmpty()
    ensures Join([]) == ""
    ensures Split(Join([])) == [""]
  {
  }
}
