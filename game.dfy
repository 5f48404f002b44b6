/** The game as the page runs it: falling elements whose fields change in
    place, and one session object holding the score, the running flag, the
    active elements and the missed-letter list. Every method is proved to
    follow the functions of module GameSpec. */
module Game {
  import opened Alphabet
  import opened GameSpec

  /** Looks for `c` among the missed letters already shown, one by one. */
  method IsAlreadyThere(spans: seq<char>, c: char) returns (found: bool)
    ensures found <==> c in spans
  {
    found := false;
    var i := 0;
    while i < |spans| && !found
      invariant 0 <= i <= |spans|
      invariant found <==> c in spans[..i]
    {
      found := spans[i] == c;
      assert spans[..i + 1] == spans[..i] + [spans[i]];
      i := i + 1;
    }
    assert found || spans[..i] == spans;
  }

  class FallingElement {
    var value: char
    var x: int
    var y: int
    var speed: int
    var toRemove: bool

    /** The element's fields as a value. */
    function View(): Elem
      reads this
    {
      Elem(value, x, y, speed, toRemove)
    }

    constructor (value: char, x: int, y: int, speed: int)
      ensures View() == Elem(value, x, y, speed, false)
    {
      this.value := value;
      this.x := x;
      this.y := y;
      this.speed := speed;
      this.toRemove := false;
    }

    /** Marks the element as gone; its span leaves the page. */
    method RemoveElement()
      modifies this`toRemove
      ensures toRemove
    {
      toRemove := true;
    }

    /** Adds this element's character to the missed list unless it is there already. */
    method AddMissingLetter(g: Session)
      modifies g`missed
      ensures g.missed == InsertMissed(old(g.missed), value)
    {
      var isAlreadyThere := IsAlreadyThere(g.missed, value);
      if !isAlreadyThere {
        g.missed := g.missed + [value];
      }
    }

    /** One frame of this element: fall by `speed`; past the bottom of the
        canvas, mark it removed and, for a capital letter, record it as missed;
        finally clamp the score at zero. */
    method Update(g: Session)
      modifies this, g`missed, g`score
      ensures View() == Advance(old(View()), g.height)
      ensures g.missed == if Expires(old(View()), g.height) && IsUpper(value)
                          then InsertMissed(old(g.missed), value) else old(g.missed)
      ensures g.score == Max(old(g.score), 0)
    {
      y := y + speed;
      if y > g.height {
        RemoveElement();
        if IsUpper(value) {
          AddMissingLetter(g);
        }
      }
      g.score := Max(g.score, 0);
    }

    /** The click handler of the element's span: ignored while the game is
        stopped; a capital letter scores one and is removed; anything else is
        only recoloured and keeps falling. */
    method OnClick(g: Session)
      modifies this`toRemove, g`score
      ensures old(g.isGameRunning) && IsUpper(value) ==>
        toRemove && g.score == old(g.score) + 1
      ensures !(old(g.isGameRunning) && IsUpper(value)) ==>
        toRemove == old(toRemove) && g.score == old(g.score)
    {
      if !g.isGameRunning {
        return;
      }
      if IsUpper(value) {
        g.score := g.score + 1;
        RemoveElement();
      }
    }
  }

  /** The values of a sequence of elements, in order. */
  function Views(es: seq<FallingElement>): (r: seq<Elem>)
    reads es
    ensures |r| == |es|
    ensures forall i {:trigger r[i]} :: 0 <= i < |es| ==> r[i] == es[i].View()
  {
    if es == [] then [] else Views(es[..|es| - 1]) + [es[|es| - 1].View()]
  }

  /** The `i`-th element, as a term that only the distinctness quantifier
      below is triggered on. */
  ghost function Nth(es: seq<FallingElement>, i: nat): FallingElement
    requires i < |es|
  {
    es[i]
  }

  /** No element object occurs twice. */
  ghost predicate Distinct(es: seq<FallingElement>)
  {
    forall i, j {:trigger Nth(es, i), Nth(es, j)} :: 0 <= i < j < |es| ==> Nth(es, i) != Nth(es, j)
  }

  /** Two positions of a distinct sequence hold two different objects. */
  lemma DistinctAt(es: seq<FallingElement>, i: nat, j: nat)
    requires Distinct(es) && i < |es| && j < |es| && i != j
    ensures es[i] != es[j]
  {
    if i < j {
      assert Nth(es, i) != Nth(es, j);
    } else {
      assert Nth(es, j) != Nth(es, i);
    }
  }

  /** The element objects not marked for removal, in their order. */
  ghost function Kept(es: seq<FallingElement>): seq<FallingElement>
    reads es
  {
    if es == [] then []
    else
      var last := es[|es| - 1];
      Kept(es[..|es| - 1]) + (if last.toRemove then [] else [last])
  }

  /** The kept objects carry exactly the surviving values. */
  lemma {:induction false} KeptViews(es: seq<FallingElement>)
    ensures Views(Kept(es)) == Survivors(Views(es))
  {
    if es != [] {
      var init, last := es[..|es| - 1], es[|es| - 1];
      KeptViews(init);
      assert es == init + [last];
      ViewsSnoc(init, last);
      SurvivorsSnoc(Views(init), last.View());
      if !last.toRemove {
        ViewsSnoc(Kept(init), last);
      }
    }
  }

  /** Keeping objects of a distinct sequence gives a distinct sequence of
      objects taken from it. */
  lemma {:induction false} KeptDistinct(es: seq<FallingElement>)
    requires Distinct(es)
    ensures Distinct(Kept(es))
    ensures forall e :: e in Kept(es) ==> e in es
  {
    if es != [] {
      var init, last := es[..|es| - 1], es[|es| - 1];
      assert es == init + [last];
      assert Distinct(init) by {
        forall i, j | 0 <= i < j < |init|
          ensures Nth(init, i) != Nth(init, j)
        {
          DistinctAt(es, i, j);
        }
      }
      KeptDistinct(init);
      if last.toRemove {
        assert Kept(es) == Kept(init);
      } else {
        assert Kept(es) == Kept(init) + [last];
        DistinctSnoc(Kept(init), last, init);
      }
    }
  }

  /** A distinct sequence stays distinct when a later element of a distinct
      sequence is appended. */
  lemma DistinctSnoc(r: seq<FallingElement>, e: FallingElement, prefix: seq<FallingElement>)
    requires Distinct(r) && Distinct(prefix + [e])
    requires forall x :: x in r ==> x in prefix
    ensures Distinct(r + [e])
  {
    forall i, j | 0 <= i < j < |r| + 1
      ensures Nth(r + [e], i) != Nth(r + [e], j)
    {
      if j == |r| {
        assert r[i] in prefix;
        var k :| 0 <= k < |prefix| && prefix[k] == r[i];
        DistinctAt(prefix + [e], k, |prefix|);
      } else {
        DistinctAt(r, i, j);
      }
    }
  }

  /** The elements not marked for removal, in their order: the filter of the
      game loop. */
  method RemoveMarked(es: seq<FallingElement>) returns (r: seq<FallingElement>)
    ensures Views(r) == Survivors(Views(es))
    ensures Distinct(es) ==> Distinct(r)
  {
    r := [];
    var i := 0;
    while i < |es|
      invariant 0 <= i <= |es|
      invariant r == Kept(es[..i])
    {
      assert es[..i + 1][..i] == es[..i];
      if !es[i].toRemove {
        r := r + [es[i]];
      }
      i := i + 1;
    }
    assert es[..i] == es;
    KeptViews(es);
    if Distinct(es) {
      KeptDistinct(es);
    }
  }

  /** Views of a sequence with one more element. */
  lemma ViewsSnoc(es: seq<FallingElement>, e: FallingElement)
    ensures Views(es + [e]) == Views(es) + [e.View()]
  {
  }

  class Session {
    var score: int
    var isGameRunning: bool
    var elements: seq<FallingElement>
    var missed: seq<char>
    /** The canvas height, fixed when the page loads. */
    const height: int

    /** The session's fields as a value. */
    function View(): State
      reads this, elements
    {
      State(score, isGameRunning, Views(elements), missed)
    }

    ghost predicate Valid()
      reads this, elements
    {
      Distinct(elements) && Inv(View())
    }

    /** The page's starting state: score 0, running, no element and no missed letter. */
    constructor (height: int)
      ensures Valid() && this.height == height
      ensures View() == Initial()
    {
      this.height := height;
      score := 0;
      isGameRunning := true;
      elements := [];
      missed := [];
    }

    /** Appends a new element at the top, with the drawn character and offset. */
    method GenerateRandomElement(charIndex: nat, x: int)
      requires charIndex < |Characters|
      modifies this`elements
      ensures |elements| == |old(elements)| + 1 && elements[..|old(elements)|] == old(elements)
      ensures fresh(elements[|elements| - 1])
      ensures Distinct(old(elements)) ==> Distinct(elements)
      ensures Views(elements) == old(Views(elements)) + [NewElement(charIndex, x)]
    {
      ghost var before := elements;
      var element := new FallingElement(Characters[charIndex], x, 0, Speed);
      elements := elements + [element];
      assert Views(elements) == old(Views(elements)) + [NewElement(charIndex, x)];
      if Distinct(before) {
        forall i, j | 0 <= i < j < |elements|
          ensures Nth(elements, i) != Nth(elements, j)
        {
          if j < |before| {
            DistinctAt(before, i, j);
          }
        }
      }
    }

    /** Updates every active element in order. */
    method UpdateElements()
      requires Distinct(elements)
      modifies this`missed, this`score, elements
      ensures elements == old(elements)
      ensures Views(elements) == AdvanceAll(old(Views(elements)), height)
      ensures missed == RecordMissed(old(Views(elements)), height, old(missed))
      ensures score == if old(elements) == [] then old(score) else Max(old(score), 0)
    {
      ghost var before := Views(elements);
      ghost var m0, s0 := missed, score;
      for i := 0 to |elements|
        invariant forall j :: 0 <= j < i ==> elements[j].View() == Advance(before[j], height)
        invariant forall j :: i <= j < |elements| ==> elements[j].View() == before[j]
        invariant missed == RecordMissed(before[..i], height, m0)
        invariant score == if i == 0 then s0 else Max(s0, 0)
      {
        assert before[..i + 1][..i] == before[..i];
        UpdateAt(i);
      }
      assert before[..|elements|] == before;
    }

    /** The update of the `i`-th element; the other elements do not change. */
    method UpdateAt(i: nat)
      requires Distinct(elements) && i < |elements|
      modifies this`missed, this`score, elements[i]
      ensures elements[i].View() == Advance(old(elements[i].View()), height)
      ensures forall j :: 0 <= j < |elements| && j != i ==> elements[j].View() == old(elements[j].View())
      ensures missed == RecordMissed([old(elements[i].View())], height, old(missed))
      ensures score == Max(old(score), 0)
    {
      forall j | 0 <= j < |elements| && j != i
        ensures elements[j] != elements[i]
      {
        DistinctAt(elements, i, j);
      }
      elements[i].Update(this);
    }

    /** One call of the game loop, with the frame's random draws as `roll`. */
    method GameLoop(roll: Roll)
      requires Valid() && ValidRoll(roll)
      modifies this, elements
      ensures Valid()
      ensures View() == Tick(old(View()), height, roll)
    {
      if !isGameRunning {
        return;
      }
      if score >= MaxScore {
        elements := [];
        isGameRunning := false;
        return;
      }
      ghost var st := View();
      PlayFrame(roll);
      TickKeepsInv(st, height, roll);
    }

    /** The frame body of the game loop below the winning score: update every
        element, spawn one if the draw says so, drop the marked ones. */
    method PlayFrame(roll: Roll)
      requires Distinct(elements) && ValidRoll(roll) && isGameRunning
      modifies this`elements, this`missed, this`score, elements
      ensures Distinct(elements)
      ensures Views(elements) == PlayedElements(old(Views(elements)), height, roll)
      ensures missed == RecordMissed(old(Views(elements)), height, old(missed))
      ensures score == if old(elements) == [] then old(score) else Max(old(score), 0)
    {
      UpdateAndSpawn(roll);
      FilterElements();
    }

    /** Keeps only the elements not marked for removal. */
    method FilterElements()
      requires Distinct(elements)
      modifies this`elements
      ensures Distinct(elements)
      ensures Views(elements) == Survivors(old(Views(elements)))
    {
      var kept := RemoveMarked(elements);
      elements := kept;
    }

    /** The update loop of a frame followed by the spawn draw. */
    method UpdateAndSpawn(roll: Roll)
      requires Distinct(elements) && ValidRoll(roll)
      modifies this`elements, this`missed, this`score, elements
      ensures Distinct(elements)
      ensures Views(elements) == var moved := AdvanceAll(old(Views(elements)), height);
        if roll.Spawn? then moved + [NewElement(roll.charIndex, roll.x)] else moved
      ensures missed == RecordMissed(old(Views(elements)), height, old(missed))
      ensures score == if old(elements) == [] then old(score) else Max(old(score), 0)
    {
      UpdateElements();
      if roll.Spawn? {
        GenerateRandomElement(roll.charIndex, roll.x);
      }
    }

    /** A click on the `i`-th active element. A marked element's span is no
        longer on the page, so its handler is not reached. */
    method Click(i: nat)
      requires Valid() && i < |elements|
      modifies elements[i], this`score
      ensures Valid()
      ensures View() == ClickOn(old(View()), i)
    {
      if elements[i].toRemove {
        return;
      }
      ghost var st := View();
      forall j | 0 <= j < |elements| && j != i
        ensures elements[j] != elements[i]
      {
        DistinctAt(elements, i, j);
      }
      ClickKeepsInv(st, i);
      elements[i].OnClick(this);
      ghost var now := Views(elements);
      assert now == st.elements[i := now[i]];
    }

    /** The keydown handler: Enter restarts the game, Escape pauses or
        resumes it; both then call the game loop. */
    method OnKeyDown(key: string, roll: Roll)
      requires Valid() && ValidRoll(roll)
      modifies this, elements
      ensures Valid()
      ensures View() == KeyDown(old(View()), key, height, roll)
    {
      if key == "Enter" {
        Restart();
        GameLoop(roll);
      }
      if key == "Escape" {
        TogglePause();
        GameLoop(roll);
      }
    }

    /** The fields the Enter key resets: running, score 0, no element, no missed letter. */
    method Restart()
      modifies this`isGameRunning, this`score, this`elements, this`missed
      ensures Valid() && View() == Initial()
    {
      isGameRunning := true;
      score := 0;
      elements := [];
      missed := [];
    }

    /** The Escape key's flip of the running flag. */
    method TogglePause()
      requires Valid()
      modifies this`isGameRunning
      ensures Valid()
      ensures View() == old(View()).(running := !old(isGameRunning))
    {
      isGameRunning := !isGameRunning;
    }
  }
}
