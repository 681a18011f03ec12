/** The third version: AbstractName gathers rendering, equality, hashing and concat (NameCore);
    its StringName keeps the second version's component operations (NamesB02.StringName) and
    adds clone. */
module NamesB03 {
  import opened Common
  import opened Grammar
  import opened NameCore
  import opened NamesB02

  /** `clone`: a new name over the same text and delimiter, whose count is computed afresh. */
  method Clone(n: StringName) returns (c: StringName)
    ensures fresh(c)
    ensures c.name == n.name && c.delimiter == n.delimiter && c.CountFresh()
    ensures n.CountFresh() ==> SameComponents(n.View(), c.View())
  {
    c := new StringName(n.name, Some([n.delimiter]));
    SameComponentsIsEquivalence(c.View(), c.View(), c.View());
  }

  /** With a stale count the inherited operations see only the first two components: asString
      drops "b", and the clone, counted afresh, is not equal to its original. */
  method StaleCountHidesComponent() returns (shown: Result<string>, equal: Result<bool>)
    ensures shown == Ok("x.y") && equal == Ok(false)
  {
    var n := StaleName();
    assert Components(n.View()) == ["x", "y"];
    UnmaskAllPlain(["x", "y"], '.');
    assert Rendered(["x", "y"], '.', ".") == "x.y" by {
      assert Join(["x", "y"], ".") == "x" + "." + Join(["y"], ".");
    }
    shown := NameCore.AsString(n.View(), ".");
    var c := Clone(n);
    equal := IsEqual(n.View(), Some(c.View()));
  }

  /** A stale count larger than the tokens makes the inherited asString raise. */
  method StaleCountRaises() returns (shown: Result<string>)
    ensures shown == Err(OutOfBounds)
  {
    var n := new StringName("a.b", None);
    assert n.Tokens() == ["a", "b"] by {
      var s := "a.b";
      assert FirstSepFrom(s, '.', 0) == 1;
      assert s[..1] == "a" && s[2..] == "b";
      assert Split("b", '.') == ["b"];
    }
    var st := n.SetComponent(0, "x\\");
    assert n.name == "x\\.b";
    assert |n.Tokens()| == 1 by {
      var s := "x\\.b";
      assert FirstSepFrom(s, '.', 0) == |s| by {
        forall j | 0 <= j < |s| ensures !IsSep(s, '.', j) {
          assert j == 0 || j == 1 || j == 2 || j == 3;
        }
      }
    }
    shown := NameCore.AsString(n.View(), ".");
  }
}
