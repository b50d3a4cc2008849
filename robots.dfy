/** Robots: the registry of running robots, keyed by account and vendor,
    filled at start-up from the configured robot beans. */
module Echoman {
  import opened Lang
  import opened Model

  /** The robot kinds newRobot can build; the site robots keep the bean
      they were built from. */
  datatype Robot =
    | BaiduRobot(bean: RobotBean)
    | QQRobot(bean: RobotBean)
    | HujiangRobot(bean: RobotBean)
    | DefaultRobot

  /** The registry key of a robot: `owner + "@" + vender`, each rendered as
      Java renders a possibly null String. */
  function Rename(vender: Option<string>, owner: Option<string>): (r: string)
    ensures |r| == |Show(owner)| + 1 + |Show(vender)|
    ensures r[..|Show(owner)|] == Show(owner)
    ensures r[|Show(owner)|] == '@'
    ensures r[|Show(owner)| + 1..] == Show(vender)
  {
    Show(owner) + "@" + Show(vender)
  }

  /** Two non-null pairs share a key only when they are the same pair,
      provided neither owner contains an '@'. */
  lemma RenameInjective(v1: string, o1: string, v2: string, o2: string)
    requires '@' !in o1 && '@' !in o2
    requires Rename(Some(v1), Some(o1)) == Rename(Some(v2), Some(o2))
    ensures v1 == v2 && o1 == o2
  {
    var k := Rename(Some(v1), Some(o1));
    assert k[|o1|] == '@' && k[|o2|] == '@';
    assert forall i :: 0 <= i < |o1| ==> k[i] == o1[i];
    assert forall i :: 0 <= i < |o2| ==> k[i] == o2[i];
    assert o1 == k[..|o1|];
    assert v1 == k[|o1| + 1..];
  }

  /** A null owner or vendor gets the same key as the text "null". */
  lemma NullRenamesAsText(v: Option<string>, o: Option<string>)
    ensures Rename(None, o) == Rename(Some("null"), o)
    ensures Rename(v, None) == Rename(v, Some("null"))
  {
  }

  /** newRobot: a switch on the bean's type. A null type makes the switch
      throw; the three site names give their robot; anything else gives
      the default robot. No outcome is a null robot. */
  function NewRobot(bean: RobotBean): (r: Result<Robot, Fault>)
    reads bean
    ensures r.Err? <==> bean.GetType() == None
    ensures r.Err? ==> r.error == NullPointer
    ensures r == Ok(BaiduRobot(bean)) <==> bean.GetType() == Some("BAIDU")
    ensures r == Ok(QQRobot(bean)) <==> bean.GetType() == Some("QQ")
    ensures r == Ok(HujiangRobot(bean)) <==> bean.GetType() == Some("HUJIANG")
    ensures r == Ok(DefaultRobot) <==>
      bean.GetType().Some? && bean.GetType().value !in {"BAIDU", "QQ", "HUJIANG"}
  {
    match bean.GetType()
    case None => Err(NullPointer)
    case Some(t) =>
      if t == "BAIDU" then Ok(BaiduRobot(bean))
      else if t == "QQ" then Ok(QQRobot(bean))
      else if t == "HUJIANG" then Ok(HujiangRobot(bean))
      else Ok(DefaultRobot)
  }

  /** What getRobot answers against a registry: the robot under the key,
      None (Java's null) for a key never enrolled. */
  function Lookup(robots: map<string, Robot>, vender: Option<string>, owner: Option<string>): (r: Option<Robot>)
    ensures r.Some? <==> Rename(vender, owner) in robots
    ensures r.Some? ==> r.value == robots[Rename(vender, owner)]
  {
    var key := Rename(vender, owner);
    if key in robots then Some(robots[key]) else None
  }

  /** Enrolling and then looking up: the pair just enrolled (or any pair
      with the same key) finds the new robot, every other pair finds what
      it found before. */
  lemma LookupAfterEnroll(robots: map<string, Robot>, v: Option<string>, o: Option<string>, robot: Robot,
                          v': Option<string>, o': Option<string>)
    ensures Lookup(robots[Rename(v, o) := robot], v', o') ==
      if Rename(v', o') == Rename(v, o) then Some(robot) else Lookup(robots, v', o')
  {
  }

  /** The registry loop of onStart, from the front of the bean sequence:
      the registry it leaves and how it ends. It stops at the first bean
      whose type is null, which is not enrolled. */
  function EnrollAll(robots: map<string, Robot>, beans: seq<RobotBean>): (map<string, Robot>, Outcome)
    reads beans
    decreases |beans|
  {
    if beans == [] then (robots, Completed)
    else
      match NewRobot(beans[0])
      case Err(e) => (robots, Thrown(e))
      case Ok(robot) => EnrollAll(robots[KeyOf(beans[0]) := robot], beans[1..])
  }

  /** The key under which onStart enrolls a bean. */
  function KeyOf(bean: RobotBean): string
    reads bean
  {
    Rename(bean.GetType(), bean.GetAccount())
  }

  /** The loop completes exactly when every bean has a type. */
  lemma {:induction false} EnrollAllCompletes(robots: map<string, Robot>, beans: seq<RobotBean>)
    ensures EnrollAll(robots, beans).1 == Completed <==>
      forall i :: 0 <= i < |beans| ==> beans[i].GetType().Some?
    decreases |beans|
  {
    if beans != [] {
      if NewRobot(beans[0]).Ok? {
        EnrollAllCompletes(robots[KeyOf(beans[0]) := NewRobot(beans[0]).value], beans[1..]);
        assert forall i :: 0 <= i < |beans| - 1 ==> beans[1..][i] == beans[i + 1];
      }
    }
  }

  /** The loop never drops a key the registry held, and a loop that does
      not complete ends with newRobot's NullPointerException. */
  lemma {:induction false} EnrollAllFault(robots: map<string, Robot>, beans: seq<RobotBean>)
    ensures robots.Keys <= EnrollAll(robots, beans).0.Keys
    ensures EnrollAll(robots, beans).1 == Completed || EnrollAll(robots, beans).1 == Thrown(NullPointer)
    decreases |beans|
  {
    if beans != [] && NewRobot(beans[0]).Ok? {
      EnrollAllFault(robots[KeyOf(beans[0]) := NewRobot(beans[0]).value], beans[1..]);
    }
  }

  /** After a completed loop the registry holds the keys it held before and
      the key of every bean, and no other. */
  lemma {:induction false} EnrollAllKeys(robots: map<string, Robot>, beans: seq<RobotBean>, key: string)
    requires EnrollAll(robots, beans).1 == Completed
    ensures key in EnrollAll(robots, beans).0 <==>
      key in robots || exists i :: 0 <= i < |beans| && KeyOf(beans[i]) == key
    decreases |beans|
  {
    if beans != [] {
      var rest := beans[1..];
      var next := robots[KeyOf(beans[0]) := NewRobot(beans[0]).value];
      EnrollAllKeys(next, rest, key);
      if exists i :: 0 <= i < |rest| && KeyOf(rest[i]) == key {
        var i :| 0 <= i < |rest| && KeyOf(rest[i]) == key;
        assert beans[i + 1] == rest[i];
      }
      if exists i :: 0 <= i < |beans| && KeyOf(beans[i]) == key {
        var i :| 0 <= i < |beans| && KeyOf(beans[i]) == key;
        if i > 0 { assert rest[i - 1] == beans[i]; }
      }
    }
  }

  /** After a completed loop the robot under a bean's key is the one built
      from the last bean with that key. */
  lemma {:induction false} EnrollAllLastWins(robots: map<string, Robot>, beans: seq<RobotBean>, i: int)
    requires EnrollAll(robots, beans).1 == Completed
    requires 0 <= i < |beans|
    requires forall j :: i < j < |beans| ==> KeyOf(beans[j]) != KeyOf(beans[i])
    ensures NewRobot(beans[i]).Ok?
    ensures KeyOf(beans[i]) in EnrollAll(robots, beans).0
    ensures EnrollAll(robots, beans).0[KeyOf(beans[i])] == NewRobot(beans[i]).value
    decreases |beans|
  {
    var rest := beans[1..];
    var next := robots[KeyOf(beans[0]) := NewRobot(beans[0]).value];
    assert forall j :: 0 <= j < |rest| ==> rest[j] == beans[j + 1];
    if i > 0 {
      EnrollAllLastWins(next, rest, i - 1);
    } else {
      assert forall j :: 0 <= j < |rest| ==> KeyOf(rest[j]) != KeyOf(beans[0]);
      EnrollAllKeeps(next, rest, KeyOf(beans[0]));
    }
  }

  /** A key no bean of a completed loop uses keeps its robot. */
  lemma {:induction false} EnrollAllKeeps(robots: map<string, Robot>, beans: seq<RobotBean>, key: string)
    requires EnrollAll(robots, beans).1 == Completed
    requires key in robots
    requires forall j :: 0 <= j < |beans| ==> KeyOf(beans[j]) != key
    ensures key in EnrollAll(robots, beans).0 && EnrollAll(robots, beans).0[key] == robots[key]
    decreases |beans|
  {
    if beans != [] {
      var rest := beans[1..];
      assert forall j :: 0 <= j < |rest| ==> rest[j] == beans[j + 1];
      EnrollAllKeeps(robots[KeyOf(beans[0]) := NewRobot(beans[0]).value], rest, key);
    }
  }

  class Robots {
    var robots: map<string, Robot>

    /** A new registry is empty. */
    constructor ()
      ensures robots == map[]
    {
      robots := map[];
    }

    function GetRobot(vender: Option<string>, owner: Option<string>): (r: Option<Robot>)
      reads this
      ensures r.Some? <==> Rename(vender, owner) in robots
      ensures r.Some? ==> r.value == robots[Rename(vender, owner)]
    {
      Lookup(robots, vender, owner)
    }

    /** enroll: puts the robot under the pair's key, replacing any robot
        there; every other key is untouched. */
    method Enroll(vender: Option<string>, owner: Option<string>, robot: Robot)
      modifies this
      ensures robots == old(robots)[Rename(vender, owner) := robot]
      ensures GetRobot(vender, owner) == Some(robot)
      ensures forall k :: k != Rename(vender, owner) ==>
        (k in robots <==> k in old(robots)) && (k in robots ==> robots[k] == old(robots)[k])
    {
      robots := robots[Rename(vender, owner) := robot];
    }

    /** onStart: reads the configured beans (`config` is Err when loading
        them threw, Ok(None) when it returned null) and enrolls each under
        its type and account, in the iteration order given. */
    method OnStart(config: Result<Option<seq<RobotBean>>, string>) returns (outcome: Outcome)
      modifies this
      ensures config.Err? ==> outcome == Completed && robots == old(robots)
      ensures config == Ok(None) ==> outcome == Thrown(NullPointer) && robots == old(robots)
      ensures config.Ok? && config.value.Some? ==>
        (robots, outcome) == EnrollAll(old(robots), config.value.value)
    {
      if config.Err? {
        return Completed;
      }
      if config.value.None? {
        return Thrown(NullPointer);
      }
      var beans := config.value.value;
      for k := 0 to |beans|
        invariant EnrollAll(robots, beans[k..]) == EnrollAll(old(robots), beans)
      {
        var bean := beans[k];
        assert beans[k..][1..] == beans[k + 1..];
        var robot := NewRobot(bean);
        if robot.Err? {
          return Thrown(robot.error);
        }
        Enroll(bean.GetType(), bean.GetAccount(), robot.value);
      }
      assert beans[|beans|..] == [];
      outcome := Completed;
    }
  }
}
