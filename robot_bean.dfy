/** RobotBean: the configuration record of one robot account, a plain
    mutable holder of three nullable strings. */
module Model {
  import opened Lang

  /** The text of `"RobotBean [type=" + type + ", account=" + account + "]"`:
      the type and the account, each rendered as Java renders a possibly
      null String, between fixed labels. The password has no part in it. */
  function Rendered(robotType: Option<string>, account: Option<string>): (r: string)
    ensures |r| == 27 + |Show(robotType)| + |Show(account)|
    ensures r[..16] == "RobotBean [type="
    ensures r[16..16 + |Show(robotType)|] == Show(robotType)
    ensures r[16 + |Show(robotType)|..26 + |Show(robotType)|] == ", account="
    ensures r[26 + |Show(robotType)|..|r| - 1] == Show(account)
    ensures r[|r| - 1] == ']'
  {
    var t, a := Show(robotType), Show(account);
    var r := "RobotBean [type=" + t + ", account=" + a + "]";
    assert r[..16] == "RobotBean [type=";
    assert r[16..16 + |t|] == t;
    assert r[16 + |t|..26 + |t|] == ", account=";
    assert r[26 + |t|..|r| - 1] == a;
    r
  }

  /** The rendering gives back the texts of both fields whenever the type
      text holds no comma, so two beans printing alike have the same type
      and account texts. A null field and the text "null" print alike
      (RenderedNullAsText), so the fields themselves are not recovered. */
  lemma RenderedDeterminesFields(t1: Option<string>, a1: Option<string>, t2: Option<string>, a2: Option<string>)
    requires ',' !in Show(t1) && ',' !in Show(t2)
    requires Rendered(t1, a1) == Rendered(t2, a2)
    ensures Show(t1) == Show(t2) && Show(a1) == Show(a2)
  {
    LabelledPairDetermined("RobotBean [type=", ", account=", "]", Show(t1), Show(a1), Show(t2), Show(a2));
  }

  /** A null type or account renders as the text "null" does. */
  lemma RenderedNullAsText(t: Option<string>, a: Option<string>)
    ensures Rendered(None, a) == Rendered(Some("null"), a)
    ensures Rendered(t, None) == Rendered(t, Some("null"))
  {
  }

  /** `lead + x + sep + a + tail` determines `x` and `a` when `x` holds no
      first character of `sep`. */
  lemma LabelledPairDetermined(lead: string, sep: string, tail: string,
                               x1: string, a1: string, x2: string, a2: string)
    requires sep != [] && sep[0] !in x1 && sep[0] !in x2
    requires lead + x1 + sep + a1 + tail == lead + x2 + sep + a2 + tail
    ensures x1 == x2 && a1 == a2
  {
    var r := lead + x1 + sep + a1 + tail;
    var off := |lead|;
    assert r[off..off + |x1|] == x1 && r[off + |x1|] == sep[0];
    var r2 := lead + x2 + sep + a2 + tail;
    assert r2[off..off + |x2|] == x2 && r2[off + |x2|] == sep[0];
    TextBeforeMark(r, off, x1, x2, sep[0]);
    assert a1 == r[off + |x1| + |sep|..|r| - |tail|];
    assert a2 == r2[off + |x2| + |sep|..|r2| - |tail|];
  }

  /** Two texts that both start at `off` in `r`, contain no `m`, and are
      both followed by an `m` there are the same text. */
  lemma TextBeforeMark(r: string, off: nat, x: string, y: string, m: char)
    requires off + |x| < |r| && off + |y| < |r|
    requires r[off..off + |x|] == x && r[off..off + |y|] == y
    requires r[off + |x|] == m && r[off + |y|] == m
    requires m !in x && m !in y
    ensures x == y
  {
    assert forall k :: 0 <= k < |x| ==> r[off + k] == x[k];
    assert forall k :: 0 <= k < |y| ==> r[off + k] == y[k];
  }

  class RobotBean {
    var robotType: Option<string>
    var account: Option<string>
    var password: Option<string>

    /** `new RobotBean()`: every field starts null. */
    constructor ()
      ensures robotType == None && account == None && password == None
    {
      robotType := None;
      account := None;
      password := None;
    }

    function GetType(): (r: Option<string>)
      reads this
      ensures r == robotType
    {
      robotType
    }

    function GetAccount(): (r: Option<string>)
      reads this
      ensures r == account
    {
      account
    }

    function GetPassword(): (r: Option<string>)
      reads this
      ensures r == password
    {
      password
    }

    method SetType(t: Option<string>)
      modifies this
      ensures GetType() == t
      ensures GetAccount() == old(GetAccount()) && GetPassword() == old(GetPassword())
    {
      robotType := t;
    }

    method SetAccount(a: Option<string>)
      modifies this
      ensures GetAccount() == a
      ensures GetType() == old(GetType()) && GetPassword() == old(GetPassword())
    {
      account := a;
    }

    /** Changing the password leaves the printed form as it was. */
    method SetPassword(p: Option<string>)
      modifies this
      ensures GetPassword() == p
      ensures GetType() == old(GetType()) && GetAccount() == old(GetAccount())
      ensures ToString() == old(ToString())
    {
      password := p;
    }

    function ToString(): (r: string)
      reads this
      ensures r == Rendered(GetType(), GetAccount())
    {
      Rendered(robotType, account)
    }
  }
}
