/** Where in a list something first comes: the lookup the tables and the tab strips share. */
module First {

  /** The first place whose element is wanted, or the length. */
  function Where<T>(s: seq<T>, wanted: T -> bool): (i: nat)
    ensures i <= |s|
    ensures i < |s| ==> wanted(s[i])
    ensures forall k :: 0 <= k < i ==> !wanted(s[k])
  {
    if s == [] || wanted(s[0]) then 0
    else
      var i := Where(s[1..], wanted);
      assert forall k :: 0 < k < i + 1 ==> s[k] == s[1..][k - 1];
      i + 1
  }
}
