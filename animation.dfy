/** The frame counter of src/Animation.cpp. The sprite is reduced to its
    integer texture rectangle; the texture to its size. */
module Animations {

  /** The left edge of the texture rectangle shown at a frame counter:
      every `speed` frames the next of `frameCount` columns, each as wide as
      the whole texture, so the edge is a multiple of the texture's full
      width below frameCount × width. */
  function FrameLeft(frame: int, speed: int, frameCount: int, width: int): (left: int)
    requires frame >= 0 && speed > 0 && frameCount > 0 && width > 0
    ensures 0 <= left <= (frameCount - 1) * width
    ensures left % width == 0
  {
    var column := (frame / speed) % frameCount;
    ColumnBound(column, frameCount, width);
    column * width
  }

  lemma ColumnBound(column: int, frameCount: int, width: int)
    requires 0 <= column < frameCount && width > 0
    ensures 0 <= column * width <= (frameCount - 1) * width
    ensures (column * width) % width == 0
  {
    MulNonneg(column, width);
    MulNonneg(frameCount - 1 - column, width);
    assert (frameCount - 1) * width - column * width == (frameCount - 1 - column) * width;
    DivUnique(column * width, width, column, 0);
  }

  /** Because a column is as wide as the whole texture, every column from
      the second on starts at or past the texture's right edge. */
  lemma {:induction false} LaterColumnsPastTexture(frame: int, speed: int, frameCount: int, width: int)
    requires frame >= 0 && speed > 0 && frameCount > 0 && width > 0
    requires (frame / speed) % frameCount >= 1
    ensures FrameLeft(frame, speed, frameCount, width) >= width
  {
    var column := (frame / speed) % frameCount;
    MulNonneg(column - 1, width);
    assert column * width == (column - 1) * width + width;
  }

  /** The column repeats every speed * frameCount frames. */
  lemma {:induction false} FrameLeftPeriodic(frame: int, speed: int, frameCount: int, width: int)
    requires frame >= 0 && speed > 0 && frameCount > 0 && width > 0
    ensures FrameLeft(frame + speed * frameCount, speed, frameCount, width) == FrameLeft(frame, speed, frameCount, width)
  {
    var q := frame / speed;
    DivUnique(frame + speed * frameCount, speed, q + frameCount, frame % speed);
    DivUnique(q + frameCount, frameCount, q / frameCount + 1, q % frameCount);
  }

  /** Within one period every `speed` consecutive frames show the same
      column, and the column then advances by one. */
  lemma {:induction false} FrameAdvances(column: int, offset: int, speed: int, frameCount: int, width: int)
    requires 0 <= column < frameCount - 1 && 0 <= offset < speed && width > 0
    ensures FrameLeft(column * speed + offset, speed, frameCount, width) == column * width
    ensures FrameLeft((column + 1) * speed, speed, frameCount, width) == (column + 1) * width
  {
    MulNonneg(column, speed);
    DivUnique(column * speed + offset, speed, column, offset);
    DivUnique(column, frameCount, 0, column);
    DivUnique((column + 1) * speed, speed, column + 1, 0);
    DivUnique(column + 1, frameCount, 0, column + 1);
  }

  /** Once ended, an animation stays ended as the counter grows. */
  lemma {:induction false} EndedStaysEnded(frame1: int, frame2: int, speed: int, frameCount: int)
    requires 0 <= frame1 <= frame2 && speed > 0
    requires frame1 / speed > frameCount
    ensures frame2 / speed > frameCount
  {
    DivMonotone(frame1, frame2, speed);
  }

  lemma DivMonotone(a: int, b: int, d: int)
    requires 0 <= a <= b && d > 0
    ensures a / d <= b / d
  {
    var qa, qb := a / d, b / d;
    if qa > qb {
      MulNonneg(d, qa - qb - 1);
      assert false;
    }
  }

  lemma {:induction false} MulNonneg(a: int, b: int)
    requires a >= 0 && b >= 0
    ensures a * b >= 0
  {
    if b > 0 {
      MulNonneg(a, b - 1);
      assert a * b == a * (b - 1) + a;
    }
  }

  /** Euclidean division is determined by quotient and remainder. */
  lemma DivUnique(a: int, d: int, q: int, r: int)
    requires d > 0 && 0 <= r < d && a == d * q + r
    ensures a / d == q && a % d == r
  {
    var q0, r0 := a / d, a % d;
    assert a == d * q0 + r0;
    if q > q0 {
      MulNonneg(d, q - q0 - 1);
      assert false;
    } else if q < q0 {
      MulNonneg(d, q0 - q - 1);
      assert false;
    }
  }

  class Animation {
    var name: string
    var textureWidth: int
    var textureHeight: int
    var frameCount: int
    var currentFrame: int
    var speed: int
    var rectLeft: int
    var rectTop: int
    var rectWidth: int
    var rectHeight: int

    /** The constructor's checks, and a rectangle edge at one of the
        frameCount multiples of the texture width. */
    ghost predicate Valid()
      reads this
    {
      textureWidth > 0 && textureHeight > 0 && frameCount > 0 && speed >= 0 && currentFrame >= 0 &&
      0 <= rectLeft <= (frameCount - 1) * textureWidth
    }

    /** `Animation()`: the member defaults and an empty rectangle. */
    constructor Default()
      ensures Valid()
      ensures name == "NONE" && textureWidth == 1 && textureHeight == 1
      ensures frameCount == 1 && currentFrame == 0 && speed == 0
      ensures rectLeft == 0 && rectTop == 0 && rectWidth == 0 && rectHeight == 0
    {
      name, textureWidth, textureHeight := "NONE", 1, 1;
      frameCount, currentFrame, speed := 1, 0, 0;
      rectLeft, rectTop, rectWidth, rectHeight := 0, 0, 0, 0;
    }

    /** `Animation(name, texture, frameCount, speed)`: a non-empty name, a
        texture of non-zero size, at least one frame and a non-negative
        speed; the rectangle is the first column. */
    constructor (animationName: string, width: int, height: int, frames: int, animationSpeed: int)
      requires animationName != [] && width > 0 && height > 0 && frames > 0 && animationSpeed >= 0
      ensures Valid()
      ensures name == animationName && textureWidth == width && textureHeight == height
      ensures frameCount == frames && currentFrame == 0 && speed == animationSpeed
      ensures rectLeft == 0 && rectTop == 0 && rectWidth == width && rectHeight == height
    {
      name, textureWidth, textureHeight := animationName, width, height;
      frameCount, currentFrame, speed := frames, 0, animationSpeed;
      rectLeft, rectTop, rectWidth, rectHeight := 0 * width, 0, width, height;
    }

    /** `update`: a still animation (speed 0) is left alone; otherwise the
        rectangle moves to the column of the current counter and the
        counter advances by one. */
    method Update()
      requires Valid()
      modifies this
      ensures Valid()
      ensures name == old(name) && speed == old(speed) && frameCount == old(frameCount)
      ensures textureWidth == old(textureWidth) && textureHeight == old(textureHeight)
      ensures old(speed) == 0 ==> unchanged(this)
      ensures old(speed) > 0 ==>
        currentFrame == old(currentFrame) + 1 &&
        rectLeft == FrameLeft(old(currentFrame), speed, frameCount, textureWidth) &&
        rectTop == 0 && rectWidth == textureWidth && rectHeight == textureHeight
    {
      if speed > 0 {
        rectLeft, rectTop, rectWidth, rectHeight :=
          FrameLeft(currentFrame, speed, frameCount, textureWidth), 0, textureWidth, textureHeight;
        currentFrame := currentFrame + 1;
      }
    }

    /** `getName`. */
    function GetName(): (r: string)
      reads this
      ensures r == name
    {
      name
    }

    /** `hasEnded`: the counter has run past the last column. The division
        requires a moving animation. */
    function HasEnded(): (r: bool)
      reads this
      requires speed > 0
      ensures r <==> currentFrame / speed > frameCount
    {
      currentFrame / speed > frameCount
    }
  }

  /** Two updates of a one-frame-per-update animation show its second
      column, 10 pixels in. */
  method SecondUpdateShowsSecondColumn() returns (left: int, frame: int)
    ensures left == 10 && frame == 2
  {
    var a := new Animation("walk", 10, 20, 3, 1);
    a.Update();
    a.Update();
    left, frame := a.rectLeft, a.currentFrame;
  }

  /** A still animation never moves. */
  method StillAnimationStays() returns (left: int, frame: int)
    ensures left == 0 && frame == 0
  {
    var a := new Animation("idle", 10, 20, 3, 0);
    a.Update();
    left, frame := a.rectLeft, a.currentFrame;
  }
}
