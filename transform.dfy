/** The OpenCL flip/rotate post-processor of vpp/oclpostprocess_transform.cpp.
    The transform request is a word of flag bits; `process` first rewrites a double
    flip as a half turn, then launches a flip kernel, a rotate kernel, or both through
    a cached scratch image. The kernels themselves are opaque: a launch is recorded
    with the arguments it is given, and its geometric effect on a pixel position is
    the one its name promises. */
module Transform {
  import opened Wrappers
  import opened VppCommon

  /** The uint32_t VppParamTransform::transform word. */
  type TransformWord = bv32

  /** VPP_TRANSFORM_* bits, from VideoPostProcessDefs.h, which is not part of this model. */
  const FLIP_H: TransformWord := 1
  const FLIP_V: TransformWord := 2
  const ROT_90: TransformWord := 4
  const ROT_180: TransformWord := 8
  const ROT_270: TransformWord := 16

  const FLIPS: TransformWord := FLIP_H | FLIP_V
  const ROTATIONS: TransformWord := ROT_90 | ROT_180 | ROT_270

  predicate Has(t: TransformWord, flag: TransformWord)
  {
    t & flag != 0
  }

  predicate BothFlips(t: TransformWord)
  {
    Has(t, FLIP_H) && Has(t, FLIP_V)
  }

  /** The rewrite at the head of `process`: a horizontal plus a vertical flip is a half
      turn, so both flip bits are dropped and the half turn is composed with what is
      left (a quarter turn becomes three quarters and back, a half turn cancels, and
      anything else, including an empty rest, becomes a half turn). */
  function Normalize(t: TransformWord): (r: TransformWord)
    ensures !BothFlips(r)
    ensures !BothFlips(t) ==> r == t
    ensures BothFlips(t) ==> r == 0 || r == ROT_90 || r == ROT_180 || r == ROT_270
    ensures BothFlips(t) && t & !FLIPS != ROT_90 && t & !FLIPS != ROT_180 && t & !FLIPS != ROT_270
            ==> r == ROT_180
  {
    if BothFlips(t) then
      var rest := t & !FLIPS;
      if rest == ROT_90 then ROT_270
      else if rest == ROT_180 then 0
      else if rest == ROT_270 then ROT_90
      else ROT_180
    else t
  }

  /** The rewrite is persistent, and a second `process` call leaves the word alone. */
  lemma NormalizeIsIdempotent(t: TransformWord)
    ensures Normalize(Normalize(t)) == Normalize(t)
  {
  }

  /** After the rewrite nothing is left to do exactly when nothing was asked for, or
      when the request was a double flip plus a half turn, which cancel. */
  lemma NothingLeftOnlyForIdentity(t: TransformWord)
    ensures Normalize(t) & (FLIPS | ROTATIONS) == 0
            <==> t & (FLIPS | ROTATIONS) == 0 || t == FLIPS | ROT_180
  {
  }

  /** A double flip whose remaining bits are not exactly one rotation falls to the
      `default` branch: unknown bits, two or three rotations together, or nothing at
      all beside the flips. The word becomes a plain half turn, and any rotation that
      was asked for is lost. */
  lemma IrregularRestYieldsHalfTurn(t: TransformWord)
    requires BothFlips(t) && t & !FLIPS != ROT_90 && t & !FLIPS != ROT_180 && t & !FLIPS != ROT_270
    ensures Normalize(t) == ROT_180
  {
  }

  // ---------------------------------------------------------------------------
  // What the kernels do to a pixel position, in coordinates centred on the image.

  datatype Point = Point(x: int, y: int)

  datatype FlipKernel = FlipHKernel | FlipVKernel
  datatype RotateKernel = Rot90Kernel | Rot180Kernel | Rot270Kernel

  function Flipped(k: FlipKernel, p: Point): Point
  {
    match k
    case FlipHKernel => Point(-p.x, p.y)
    case FlipVKernel => Point(p.x, -p.y)
  }

  function Rotated(k: RotateKernel, p: Point): Point
  {
    match k
    case Rot90Kernel => Point(-p.y, p.x)
    case Rot180Kernel => Point(-p.x, -p.y)
    case Rot270Kernel => Point(p.y, -p.x)
  }

  /** The kernel `flip` selects: the horizontal flip wins over the vertical one. */
  function FlipKernelOf(t: TransformWord): (k: Option<FlipKernel>)
    ensures k == Some(FlipHKernel) <==> Has(t, FLIP_H)
    ensures k == Some(FlipVKernel) <==> !Has(t, FLIP_H) && Has(t, FLIP_V)
    ensures k.None? <==> t & FLIPS == 0
  {
    if Has(t, FLIP_H) then Some(FlipHKernel)
    else if Has(t, FLIP_V) then Some(FlipVKernel)
    else None
  }

  /** The kernel `rotate` selects, in priority order quarter, half, three quarters. */
  function RotateKernelOf(t: TransformWord): (k: Option<RotateKernel>)
    ensures k == Some(Rot90Kernel) <==> Has(t, ROT_90)
    ensures k == Some(Rot180Kernel) <==> !Has(t, ROT_90) && Has(t, ROT_180)
    ensures k == Some(Rot270Kernel) <==> !Has(t, ROT_90) && !Has(t, ROT_180) && Has(t, ROT_270)
    ensures k.None? <==> t & ROTATIONS == 0
  {
    if Has(t, ROT_90) then Some(Rot90Kernel)
    else if Has(t, ROT_180) then Some(Rot180Kernel)
    else if Has(t, ROT_270) then Some(Rot270Kernel)
    else None
  }

  /** Where `process` sends a pixel for a word it has already rewritten: the selected
      flip, then the selected rotation. */
  function Performed(t: TransformWord, p: Point): Point
  {
    var q := if FlipKernelOf(t).Some? then Flipped(FlipKernelOf(t).value, p) else p;
    if RotateKernelOf(t).Some? then Rotated(RotateKernelOf(t).value, q) else q
  }

  predicate AtMostOneRotation(t: TransformWord)
  {
    var r := t & ROTATIONS;
    r == 0 || r == ROT_90 || r == ROT_180 || r == ROT_270
  }

  predicate KnownBitsOnly(t: TransformWord)
  {
    t & !(FLIPS | ROTATIONS) == 0
  }

  /** What a request means independently of the kernels: mirror horizontally if
      asked, then vertically if asked, then turn by the one rotation asked for. */
  function Requested(t: TransformWord, p: Point): Point
    requires AtMostOneRotation(t)
  {
    var a := if Has(t, FLIP_H) then Point(-p.x, p.y) else p;
    var b := if Has(t, FLIP_V) then Point(a.x, -a.y) else a;
    var r := t & ROTATIONS;
    if r == ROT_90 then Point(-b.y, b.x)
    else if r == ROT_180 then Point(-b.x, -b.y)
    else if r == ROT_270 then Point(b.y, -b.x)
    else b
  }

  /** The rewrite keeps the meaning of the request: running the kernels for the
      rewritten word moves every pixel where the original request says. */
  lemma NormalizePreservesMeaning(t: TransformWord, p: Point)
    requires AtMostOneRotation(t)
    requires BothFlips(t) ==> KnownBitsOnly(t)
    ensures Performed(Normalize(t), p) == Requested(t, p)
  {
    if BothFlips(t) {
      var rest := t & !FLIPS;
      assert t == FLIPS | rest;
      if rest == ROT_90 {
        assert Normalize(t) == ROT_270;
      } else if rest == ROT_180 {
        assert Normalize(t) == 0;
      } else if rest == ROT_270 {
        assert Normalize(t) == ROT_90;
      } else {
        assert rest == 0;
        assert Normalize(t) == ROT_180;
      }
    }
  }

  // ---------------------------------------------------------------------------
  // Kernel arguments.

  /** width / 4 - 1 in uint32_t arithmetic: the index of the last whole group of four
      pixels, which wraps to 2^32 - 1 when there is no such group. */
  function LastGroupIndex(n: Uint32): (r: Uint32)
    ensures n >= 4 ==> 4 * (r + 1) <= n < 4 * (r + 2)
    ensures n < 4 ==> r == 0xFFFF_FFFF
  {
    U32(n / 4 - 1)
  }

  datatype FlipArgs = FlipArgs(kernel: FlipKernel, size: Uint32)

  /** The kernel and the size argument `flip` passes for a source of the given size. */
  function FlipParams(t: TransformWord, width: Uint32, height: Uint32): (r: Option<FlipArgs>)
    ensures r.Some? <==> t & FLIPS != 0
    ensures r.Some? ==> Some(r.value.kernel) == FlipKernelOf(t)
    ensures r.Some? && r.value.kernel == FlipHKernel ==> r.value.size == LastGroupIndex(width)
    ensures r.Some? && r.value.kernel == FlipVKernel ==> r.value.size == height
  {
    match FlipKernelOf(t)
    case Some(FlipHKernel) => Some(FlipArgs(FlipHKernel, LastGroupIndex(width)))
    case Some(FlipVKernel) => Some(FlipArgs(FlipVKernel, height))
    case None => None
  }

  /** `size` is the number of rows one work item covers; `w` and `h` bound the kernel's
      loops. */
  datatype RotateArgs = RotateArgs(kernel: RotateKernel, size: nat, w: Uint32, h: Uint32)

  /** The kernel and the arguments `rotate` passes: a quarter turn in either direction
      works on 4x4 pixel groups, a half turn on groups of four pixels in two rows. */
  function RotateParams(t: TransformWord, width: Uint32, height: Uint32): (r: Option<RotateArgs>)
    ensures r.Some? <==> t & ROTATIONS != 0
    ensures r.Some? ==> Some(r.value.kernel) == RotateKernelOf(t)
    ensures r.Some? ==> r.value.w == LastGroupIndex(width)
    ensures r.Some? && r.value.kernel != Rot180Kernel ==> r.value.size == 4 && r.value.h == LastGroupIndex(height)
    ensures r.Some? && r.value.kernel == Rot180Kernel ==> r.value.size == 2 && r.value.h == height
  {
    match RotateKernelOf(t)
    case Some(Rot90Kernel) => Some(RotateArgs(Rot90Kernel, 4, LastGroupIndex(width), LastGroupIndex(height)))
    case Some(Rot180Kernel) => Some(RotateArgs(Rot180Kernel, 2, LastGroupIndex(width), height))
    case Some(Rot270Kernel) => Some(RotateArgs(Rot270Kernel, 4, LastGroupIndex(width), LastGroupIndex(height)))
    case None => None
  }

  // ---------------------------------------------------------------------------
  // process

  datatype ImageSize = ImageSize(width: Uint32, height: Uint32)

  /** What the OpenCL and VA-API calls of one `process` call report: the status of
      ensureContext, the OpenCL images made from the two frames (None when creation
      fails), the scratch image createScratchImage would make, and whether the flip
      and the rotate kernel are found, take their arguments and are enqueued. */
  datatype OclEnv = OclEnv(
    contextStatus: YamiStatus,
    srcImage: Option<ImageSize>,
    dstImage: Option<ImageSize>,
    createdScratch: Option<ImageSize>,
    flipLaunches: bool,
    rotateLaunches: bool)

  datatype Image = SrcImage | DstImage | ScratchImage

  datatype Launch =
    | FlipLaunch(flip: FlipArgs, from: Image, to: Image)
    | RotateLaunch(rotate: RotateArgs, from: Image, to: Image)

  /** The state `process` keeps between calls: the transform word and the cached
      scratch image. */
  datatype TransformState = TransformState(transform: TransformWord, scratch: Option<ImageSize>)

  datatype ProcessResult = ProcessResult(state: TransformState, status: YamiStatus, launches: seq<Launch>)

  /** One `process` call on values: the checks, the rewrite of the word, then the
      kernel launches. */
  function ProcessSpec(s: TransformState, src: VideoFrame, dst: VideoFrame, env: OclEnv): (r: ProcessResult)
    ensures env.contextStatus != YamiSuccess ==> r == ProcessResult(s, env.contextStatus, [])
    ensures env.contextStatus == YamiSuccess && (src.fourcc != FOURCC_NV12 || dst.fourcc != FOURCC_NV12)
            ==> r == ProcessResult(s, YamiInvalidParam, [])
    ensures r.status == YamiSuccess ==> env.contextStatus == YamiSuccess && src.fourcc == FOURCC_NV12 && dst.fourcc == FOURCC_NV12
    ensures r.state.transform == s.transform || r.state.transform == Normalize(s.transform)
  {
    if env.contextStatus != YamiSuccess then ProcessResult(s, env.contextStatus, [])
    else if src.fourcc != FOURCC_NV12 || dst.fourcc != FOURCC_NV12 then ProcessResult(s, YamiInvalidParam, [])
    else if env.srcImage.None? || env.dstImage.None? then ProcessResult(s, YamiFail, [])
    else DispatchSpec(TransformState(Normalize(s.transform), s.scratch), env.srcImage.value, env)
  }

  /** The launches for a rewritten word and a source image of the given size: flip
      into the scratch image and rotate out of it, or flip only, or rotate only, or
      refuse a word that asks for neither. */
  function DispatchSpec(s: TransformState, size: ImageSize, env: OclEnv): (r: ProcessResult)
    ensures r.state.transform == s.transform
    ensures r.status == YamiSuccess || r.status == YamiFail || r.status == YamiInvalidParam
    ensures r.status == YamiInvalidParam <==> s.transform & (FLIPS | ROTATIONS) == 0
  {
    var t := s.transform;
    var flip := FlipParams(t, size.width, size.height);
    var rotate := RotateParams(t, size.width, size.height);
    if flip.Some? && rotate.Some? then ThroughScratchSpec(s, size, env)
    else if flip.Some? then
      if env.flipLaunches then ProcessResult(s, YamiSuccess, [FlipLaunch(flip.value, SrcImage, DstImage)])
      else ProcessResult(s, YamiFail, [])
    else if rotate.Some? then
      if env.rotateLaunches then ProcessResult(s, YamiSuccess, [RotateLaunch(rotate.value, SrcImage, DstImage)])
      else ProcessResult(s, YamiFail, [])
    else ProcessResult(s, YamiInvalidParam, [])
  }

  /** Flip then rotate, through the scratch image, which is made anew unless the cached
      one has the source's size; the rotation reads the scratch image's own size. */
  function ThroughScratchSpec(s: TransformState, size: ImageSize, env: OclEnv): (r: ProcessResult)
    requires s.transform & FLIPS != 0 && s.transform & ROTATIONS != 0
    ensures r.state.transform == s.transform
    ensures r.state.scratch == (if s.scratch == Some(size) then s.scratch else env.createdScratch)
    ensures r.status == YamiSuccess || r.status == YamiFail
  {
    var t := s.transform;
    var scratch := if s.scratch == Some(size) then s.scratch else env.createdScratch;
    var s' := TransformState(t, scratch);
    if scratch.None? || !env.flipLaunches then ProcessResult(s', YamiFail, [])
    else
      var first := FlipLaunch(FlipParams(t, size.width, size.height).value, SrcImage, ScratchImage);
      var second := RotateParams(t, scratch.value.width, scratch.value.height);
      if !env.rotateLaunches then ProcessResult(s', YamiFail, [first])
      else ProcessResult(s', YamiSuccess, [first, RotateLaunch(second.value, ScratchImage, DstImage)])
  }

  /** Where a sequence of kernel launches sends a pixel of the source. */
  function Applied(launches: seq<Launch>, p: Point): Point
  {
    if launches == [] then p
    else
      var q := match launches[0]
        case FlipLaunch(f, _, _) => Flipped(f.kernel, p)
        case RotateLaunch(r, _, _) => Rotated(r.kernel, p);
      Applied(launches[1..], q)
  }

  /** The launches read the source first, write the destination last, and each one
      reads the image the previous one wrote. */
  predicate Chained(launches: seq<Launch>)
  {
    |launches| > 0 && launches[0].from == SrcImage && launches[|launches| - 1].to == DstImage
    && forall i :: 0 < i < |launches| ==> launches[i].from == launches[i - 1].to
  }

  /** A successful `process` call carries the pixels from the source to the
      destination through its launches, and together they do what the request asks. */
  lemma SuccessRealisesRequest(s: TransformState, src: VideoFrame, dst: VideoFrame, env: OclEnv, p: Point)
    requires AtMostOneRotation(s.transform)
    requires BothFlips(s.transform) ==> KnownBitsOnly(s.transform)
    requires ProcessSpec(s, src, dst, env).status == YamiSuccess
    ensures Chained(ProcessSpec(s, src, dst, env).launches)
    ensures Applied(ProcessSpec(s, src, dst, env).launches, p) == Requested(s.transform, p)
  {
    var r := ProcessSpec(s, src, dst, env);
    var t := Normalize(s.transform);
    NormalizePreservesMeaning(s.transform, p);
    assert r.state.transform == t;
    if |r.launches| == 2 {
      var q := Flipped(FlipKernelOf(t).value, p);
      assert r.launches[0].flip.kernel == FlipKernelOf(t).value;
      assert r.launches[1].rotate.kernel == RotateKernelOf(t).value;
      assert Applied(r.launches, p) == Applied(r.launches[1..], q);
      assert r.launches[1..][1..] == [];
      assert Applied(r.launches[1..], q) == Rotated(RotateKernelOf(t).value, q);
    } else {
      assert r.launches[1..] == [];
    }
  }

  /** When the images exist, `process` fails with INVALID_PARAM exactly when the
      rewritten word asks for neither a flip nor a rotation; that rewrite is kept. */
  lemma RejectsOnlyEmptyRequests(s: TransformState, src: VideoFrame, dst: VideoFrame, env: OclEnv)
    requires env.contextStatus == YamiSuccess && src.fourcc == FOURCC_NV12 && dst.fourcc == FOURCC_NV12
    requires env.srcImage.Some? && env.dstImage.Some?
    ensures ProcessSpec(s, src, dst, env).state.transform == Normalize(s.transform)
    ensures ProcessSpec(s, src, dst, env).status == YamiInvalidParam
            <==> s.transform & (FLIPS | ROTATIONS) == 0 || s.transform == FLIPS | ROT_180
  {
    NothingLeftOnlyForIdentity(s.transform);
  }

  /** The scratch image is only touched when both a flip and a rotation are needed,
      and then it is kept whenever it already has the source's size. */
  lemma ScratchIsCached(s: TransformState, src: VideoFrame, dst: VideoFrame, env: OclEnv)
    ensures var r := ProcessSpec(s, src, dst, env);
            r.state.scratch != s.scratch ==>
              env.srcImage.Some? && s.scratch != env.srcImage
              && Normalize(s.transform) & FLIPS != 0 && Normalize(s.transform) & ROTATIONS != 0
              && r.state.scratch == env.createdScratch
  {
  }

  /** VppParamType, as far as this post-processor tells the types apart. */
  datatype VppParamType = VppParamTypeTransform | OtherParamType(code: int)

  /** sizeof(VppParamTransform), a size_t followed by a uint32_t on an LP64 target. */
  const TRANSFORM_PARAM_SIZE: nat := 16

  class OclPostProcessTransform {
    var transform: TransformWord
    var scratch: Option<ImageSize>

    /** A transform parameter of the right size replaces the word; one of the wrong
        size is refused; any other parameter type is the base class's business, whose
        status is passed in. */
    method SetParameters(paramType: VppParamType, paramSize: nat, word: TransformWord, baseStatus: YamiStatus)
      returns (status: YamiStatus)
      modifies this`transform
      ensures paramType == VppParamTypeTransform && paramSize == TRANSFORM_PARAM_SIZE
              ==> status == YamiSuccess && transform == word
      ensures paramType == VppParamTypeTransform && paramSize != TRANSFORM_PARAM_SIZE
              ==> status == YamiInvalidParam && transform == old(transform)
      ensures paramType != VppParamTypeTransform ==> status == baseStatus && transform == old(transform)
    {
      status := YamiInvalidParam;
      match paramType {
        case VppParamTypeTransform =>
          if paramSize == TRANSFORM_PARAM_SIZE {
            transform := word;
            status := YamiSuccess;
          }
        case OtherParamType(_) =>
          status := baseStatus;
      }
    }

    /** The in-place rewrite of the word at the head of `process`. */
    method NormalizeTransform()
      modifies this`transform
      ensures transform == Normalize(old(transform))
    {
      if Has(transform, FLIP_H) && Has(transform, FLIP_V) {
        transform := transform & !(FLIP_H | FLIP_V);
        if transform == ROT_90 {
          transform := ROT_270;
        } else if transform == ROT_180 {
          transform := 0;
        } else if transform == ROT_270 {
          transform := ROT_90;
        } else {
          transform := ROT_180;
        }
      }
    }

    method Process(src: VideoFrame, dst: VideoFrame, env: OclEnv) returns (status: YamiStatus, launches: seq<Launch>)
      modifies this
      ensures ProcessResult(TransformState(transform, scratch), status, launches)
              == ProcessSpec(TransformState(old(transform), old(scratch)), src, dst, env)
    {
      launches := [];
      status := env.contextStatus;
      if status != YamiSuccess {
        return;
      }
      if src.fourcc != FOURCC_NV12 || dst.fourcc != FOURCC_NV12 {
        return YamiInvalidParam, [];
      }
      if env.srcImage.None? || env.dstImage.None? {
        return YamiFail, [];
      }
      var srcImage := env.srcImage.value;

      NormalizeTransform();
      status, launches := Dispatch(srcImage, env);
    }

    /** The second half of `process`, for a word already rewritten. */
    method Dispatch(srcImage: ImageSize, env: OclEnv) returns (status: YamiStatus, launches: seq<Launch>)
      modifies this`scratch
      ensures ProcessResult(TransformState(transform, scratch), status, launches)
              == DispatchSpec(TransformState(transform, old(scratch)), srcImage, env)
    {
      launches := [];
      var flip := transform & (FLIP_H | FLIP_V) != 0;
      var rotate := transform & (ROT_90 | ROT_180 | ROT_270) != 0;
      ghost var flipArgs := FlipParams(transform, srcImage.width, srcImage.height);
      ghost var rotateArgs := RotateParams(transform, srcImage.width, srcImage.height);
      assert flip == flipArgs.Some? && rotate == rotateArgs.Some?;
      if flip && rotate {
        status, launches := FlipThenRotate(srcImage, env);
        return;
      } else if flip && !rotate {
        if !env.flipLaunches {
          return YamiFail, [];
        }
        launches := [FlipLaunch(FlipParams(transform, srcImage.width, srcImage.height).value, SrcImage, DstImage)];
      } else if !flip && rotate {
        if !env.rotateLaunches {
          return YamiFail, [];
        }
        launches := [RotateLaunch(RotateParams(transform, srcImage.width, srcImage.height).value, SrcImage, DstImage)];
      } else {
        return YamiInvalidParam, [];
      }
      status := YamiSuccess;
    }

    method FlipThenRotate(srcImage: ImageSize, env: OclEnv) returns (status: YamiStatus, launches: seq<Launch>)
      requires transform & FLIPS != 0 && transform & ROTATIONS != 0
      modifies this`scratch
      ensures ProcessResult(TransformState(transform, scratch), status, launches)
              == ThroughScratchSpec(TransformState(transform, old(scratch)), srcImage, env)
    {
      if scratch.None? || srcImage.width != scratch.value.width || srcImage.height != scratch.value.height {
        scratch := env.createdScratch;
      }
      if scratch.None? {
        return YamiFail, [];
      }
      if !env.flipLaunches {
        return YamiFail, [];
      }
      var first := FlipLaunch(FlipParams(transform, srcImage.width, srcImage.height).value, SrcImage, ScratchImage);
      launches := [first];
      if !env.rotateLaunches {
        return YamiFail, launches;
      }
      var args := RotateParams(transform, scratch.value.width, scratch.value.height).value;
      launches := launches + [RotateLaunch(args, ScratchImage, DstImage)];
      status := YamiSuccess;
    }
  }
}
