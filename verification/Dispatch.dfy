/** The typed system call layer: a raw register block is narrowed to C types, handed to a hook method,
    widened again and issued to the kernel. */
module Dispatch {
  import opened Bytes

  /** The register block the trampoline hands to a hook, in field order. */
  datatype SyscallRegs = SyscallRegs(rax: u64, rdi: u64, rsi: u64, rdx: u64, r10: u64, r8: u64, r9: u64)

  // ---------------------------------------------------------------------
  // C integer types and the casts between them and 64-bit registers
  // ---------------------------------------------------------------------

  const TWO31: int := 0x8000_0000
  const TWO32: int := 0x1_0000_0000
  const TWO63: int := 0x8000_0000_0000_0000

  type i32 = x: int | -0x8000_0000 <= x < 0x8000_0000
  type u32 = x: int | 0 <= x < 0x1_0000_0000
  type i64 = x: int | -0x8000_0000_0000_0000 <= x < 0x8000_0000_0000_0000

  /** `v as c_int`: keep the low 32 bits and read them as a signed number. */
  function AsI32(v: int): i32 {
    if v % TWO32 < TWO31 then v % TWO32 else v % TWO32 - TWO32
  }

  /** `v as c_uint`: keep the low 32 bits. */
  function AsU32(v: int): u32 {
    v % TWO32
  }

  /** `v as i64` (`ssize_t`, `off_t`): the same 64 bits, read as a signed number. */
  function AsI64(v: int): i64 {
    if v % TWO64 < TWO63 then v % TWO64 else v % TWO64 - TWO64
  }

  /** `v as u64`: a signed source is sign-extended, an unsigned one zero-extended. */
  function AsU64(v: int): u64 {
    v % TWO64
  }

  // ---------------------------------------------------------------------
  // The hook methods and their arguments
  // ---------------------------------------------------------------------

  /** One constructor for each method of the hook interface, with the method's parameters. */
  datatype TypedCall =
    | Read(fd: i32, buf: u64, count: u64)
    | Write(fd: i32, buf: u64, count: u64)
    | Open(pathname: u64, flags: i32, mode: u32)
    | Close(fd: i32)
    | Lseek(fd: i32, offset: i64, whence: i32)
    | Mmap(addr: u64, length: u64, prot: i32, flags: i32, fd: i32, offset: i64)
    | Mprotect(addr: u64, length: u64, prot: i32)
    | Munmap(addr: u64, length: u64)
    | Brk(addr: u64)
    | Ioctl(fd: i32, request: u64, arg: u64)
    | Access(pathname: u64, amode: i32)
    | Pipe(pipefd: u64)
    | Dup(oldfd: i32)
    | Dup2(oldfd: i32, newfd: i32)
    | Getpid
    | Socket(domain: i32, ty: i32, protocol: i32)
    | Connect(sockfd: i32, sockaddr: u64, addrlen: u32)
    | Accept(sockfd: i32, sockaddr: u64, addrlenPtr: u64)
    | Bind(sockfd: i32, sockaddr: u64, addrlen: u32)
    | Listen(sockfd: i32, backlog: i32)
    | Fork
    | Execve(pathname: u64, argv: u64, envp: u64)
    | Exit(status: i32)
    | Wait4(pid: i32, wstatus: u64, options: i32, rusage: u64)
    | Kill(pid: i32, sig: i32)
    | Gettid
    | ExitGroup(status: i32)
    | Openat(dirfd: i32, pathname: u64, flags: i32, mode: u32)

  datatype RetType = RetInt | RetWord | RetNever

  function ReturnType(c: TypedCall): RetType {
    match c
    case Read(_, _, _) | Write(_, _, _) | Lseek(_, _, _) | Mmap(_, _, _, _, _, _) => RetWord
    case Exit(_) | ExitGroup(_) => RetNever
    case _ => RetInt
  }

  /** The match of the dispatcher: which method a register block goes to, and its arguments after the casts. */
  function Typed(r: SyscallRegs): Option<TypedCall> {
    if r.rax == 0 then Some(Read(AsI32(r.rdi), r.rsi, r.rdx))
    else if r.rax == 1 then Some(Write(AsI32(r.rdi), r.rsi, r.rdx))
    else if r.rax == 2 then Some(Open(r.rdi, AsI32(r.rsi), AsU32(r.rdx)))
    else if r.rax == 3 then Some(Close(AsI32(r.rdi)))
    else if r.rax == 8 then Some(Lseek(AsI32(r.rdi), AsI64(r.rsi), AsI32(r.rdx)))
    else if r.rax == 9 then Some(Mmap(r.rdi, r.rsi, AsI32(r.rdx), AsI32(r.r10), AsI32(r.r8), AsI64(r.r9)))
    else if r.rax == 10 then Some(Mprotect(r.rdi, r.rsi, AsI32(r.rdx)))
    else if r.rax == 11 then Some(Munmap(r.rdi, r.rsi))
    else if r.rax == 12 then Some(Brk(r.rdi))
    else if r.rax == 16 then Some(Ioctl(AsI32(r.rdi), r.rsi, r.rdx))
    else if r.rax == 21 then Some(Access(r.rdi, AsI32(r.rsi)))
    else if r.rax == 22 then Some(Pipe(r.rdi))
    else if r.rax == 32 then Some(Dup(AsI32(r.rdi)))
    else if r.rax == 33 then Some(Dup2(AsI32(r.rdi), AsI32(r.rsi)))
    else if r.rax == 39 then Some(Getpid)
    else if r.rax == 41 then Some(Socket(AsI32(r.rdi), AsI32(r.rsi), AsI32(r.rdx)))
    else if r.rax == 42 then Some(Connect(AsI32(r.rdi), r.rsi, AsU32(r.rdx)))
    else if r.rax == 43 then Some(Accept(AsI32(r.rdi), r.rsi, r.rdx))
    else if r.rax == 49 then Some(Bind(AsI32(r.rdi), r.rsi, AsU32(r.rdx)))
    else if r.rax == 50 then Some(Listen(AsI32(r.rdi), AsI32(r.rsi)))
    else if r.rax == 57 then Some(Fork)
    else if r.rax == 59 then Some(Execve(r.rdi, r.rsi, r.rdx))
    else if r.rax == 60 then Some(Exit(AsI32(r.rdi)))
    else if r.rax == 61 then Some(Wait4(AsI32(r.rdi), r.rsi, AsI32(r.rdx), r.r10))
    else if r.rax == 62 then Some(Kill(AsI32(r.rdi), AsI32(r.rsi)))
    else if r.rax == 186 then Some(Gettid)
    else if r.rax == 231 then Some(ExitGroup(AsI32(r.rdi)))
    else if r.rax == 257 then Some(Openat(AsI32(r.rdi), r.rsi, AsI32(r.rdx), AsU32(r.r10)))
    else None
  }

  /** The register block the default implementation of a method builds. */
  function DefaultRegs(c: TypedCall): SyscallRegs {
    match c
    case Read(fd, buf, count) => SyscallRegs(0, AsU64(fd), buf, count, 0, 0, 0)
    case Write(fd, buf, count) => SyscallRegs(1, AsU64(fd), buf, count, 0, 0, 0)
    case Open(pathname, flags, mode) => SyscallRegs(2, pathname, AsU64(flags), AsU64(mode), 0, 0, 0)
    case Close(fd) => SyscallRegs(3, AsU64(fd), 0, 0, 0, 0, 0)
    case Lseek(fd, offset, whence) => SyscallRegs(8, AsU64(fd), AsU64(offset), AsU64(whence), 0, 0, 0)
    case Mmap(addr, length, prot, flags, fd, offset) =>
      SyscallRegs(9, addr, length, AsU64(prot), AsU64(flags), AsU64(fd), AsU64(offset))
    case Mprotect(addr, length, prot) => SyscallRegs(10, addr, length, AsU64(prot), 0, 0, 0)
    case Munmap(addr, length) => SyscallRegs(11, addr, length, 0, 0, 0, 0)
    case Brk(addr) => SyscallRegs(12, addr, 0, 0, 0, 0, 0)
    case Ioctl(fd, request, arg) => SyscallRegs(16, AsU64(fd), request, arg, 0, 0, 0)
    case Access(pathname, amode) => SyscallRegs(21, pathname, AsU64(amode), 0, 0, 0, 0)
    case Pipe(pipefd) => SyscallRegs(22, pipefd, 0, 0, 0, 0, 0)
    case Dup(oldfd) => SyscallRegs(32, AsU64(oldfd), 0, 0, 0, 0, 0)
    case Dup2(oldfd, newfd) => SyscallRegs(33, AsU64(oldfd), AsU64(newfd), 0, 0, 0, 0)
    case Getpid => SyscallRegs(39, 0, 0, 0, 0, 0, 0)
    case Socket(domain, ty, protocol) => SyscallRegs(41, AsU64(domain), AsU64(ty), AsU64(protocol), 0, 0, 0)
    case Connect(sockfd, sockaddr, addrlen) => SyscallRegs(42, AsU64(sockfd), sockaddr, AsU64(addrlen), 0, 0, 0)
    case Accept(sockfd, sockaddr, addrlenPtr) => SyscallRegs(43, AsU64(sockfd), sockaddr, addrlenPtr, 0, 0, 0)
    case Bind(sockfd, sockaddr, addrlen) => SyscallRegs(49, AsU64(sockfd), sockaddr, AsU64(addrlen), 0, 0, 0)
    case Listen(sockfd, backlog) => SyscallRegs(50, AsU64(sockfd), AsU64(backlog), 0, 0, 0, 0)
    case Fork => SyscallRegs(57, 0, 0, 0, 0, 0, 0)
    case Execve(pathname, argv, envp) => SyscallRegs(59, pathname, argv, envp, 0, 0, 0)
    case Exit(status) => SyscallRegs(60, AsU64(status), 0, 0, 0, 0, 0)
    case Wait4(pid, wstatus, options, rusage) =>
      SyscallRegs(61, AsU64(pid), wstatus, AsU64(options), rusage, 0, 0)
    case Kill(pid, sig) => SyscallRegs(62, AsU64(pid), AsU64(sig), 0, 0, 0, 0)
    case Gettid => SyscallRegs(186, 0, 0, 0, 0, 0, 0)
    case ExitGroup(status) => SyscallRegs(231, AsU64(status), 0, 0, 0, 0, 0)
    case Openat(dirfd, pathname, flags, mode) =>
      SyscallRegs(257, AsU64(dirfd), pathname, AsU64(flags), AsU64(mode), 0, 0)
  }

  // ---------------------------------------------------------------------
  // What the kernel reads: each argument at its declared width
  // ---------------------------------------------------------------------

  datatype Width = S32 | U32 | W64

  function ReadAt(w: Width, v: u64): int {
    match w
    case S32 => AsI32(v)
    case U32 => AsU32(v)
    case W64 => v
  }

  /** The prototypes of the 28 system calls of the interface: the width of each argument. */
  function Prototype(nr: u64): (p: Option<seq<Width>>)
    ensures p.Some? ==> |p.value| <= 6
  {
    if nr in {0, 1} then Some([S32, W64, W64])
    else if nr == 2 then Some([W64, S32, U32])
    else if nr in {3, 32, 60, 231} then Some([S32])
    else if nr == 8 then Some([S32, W64, S32])
    else if nr == 9 then Some([W64, W64, S32, S32, S32, W64])
    else if nr == 10 then Some([W64, W64, S32])
    else if nr == 11 then Some([W64, W64])
    else if nr in {12, 22} then Some([W64])
    else if nr in {16, 43} then Some([S32, W64, W64])
    else if nr == 21 then Some([W64, S32])
    else if nr in {33, 50, 62} then Some([S32, S32])
    else if nr in {39, 57, 186} then Some([])
    else if nr == 41 then Some([S32, S32, S32])
    else if nr in {42, 49} then Some([S32, W64, U32])
    else if nr == 59 then Some([W64, W64, W64])
    else if nr == 61 then Some([S32, W64, S32, W64])
    else if nr == 257 then Some([S32, W64, S32, U32])
    else None
  }

  function ArgRegs(r: SyscallRegs): (s: seq<u64>)
    ensures |s| == 6
  {
    [r.rdi, r.rsi, r.rdx, r.r10, r.r8, r.r9]
  }

  datatype View = View(nr: u64, args: seq<int>)

  function ReadArgs(ws: seq<Width>, vs: seq<u64>): seq<int>
    requires |ws| <= |vs|
  {
    seq(|ws|, i requires 0 <= i < |ws| => ReadAt(ws[i], vs[i]))
  }

  /** What a kernel that honours the prototypes learns from a register block. A number outside the
      interface shows it all six registers. */
  function KernelView(r: SyscallRegs): View {
    match Prototype(r.rax)
    case Some(ws) => View(r.rax, ReadArgs(ws, ArgRegs(r)))
    case None => View(r.rax, ArgRegs(r))
  }

  /** The arguments a hook method receives, in order. */
  function MethodArgs(c: TypedCall): seq<int> {
    match c
    case Read(fd, buf, count) => [fd, buf, count]
    case Write(fd, buf, count) => [fd, buf, count]
    case Open(pathname, flags, mode) => [pathname, flags, mode]
    case Close(fd) => [fd]
    case Lseek(fd, offset, whence) => [fd, AsU64(offset), whence]
    case Mmap(addr, length, prot, flags, fd, offset) => [addr, length, prot, flags, fd, AsU64(offset)]
    case Mprotect(addr, length, prot) => [addr, length, prot]
    case Munmap(addr, length) => [addr, length]
    case Brk(addr) => [addr]
    case Ioctl(fd, request, arg) => [fd, request, arg]
    case Access(pathname, amode) => [pathname, amode]
    case Pipe(pipefd) => [pipefd]
    case Dup(oldfd) => [oldfd]
    case Dup2(oldfd, newfd) => [oldfd, newfd]
    case Getpid => []
    case Socket(domain, ty, protocol) => [domain, ty, protocol]
    case Connect(sockfd, sockaddr, addrlen) => [sockfd, sockaddr, addrlen]
    case Accept(sockfd, sockaddr, addrlenPtr) => [sockfd, sockaddr, addrlenPtr]
    case Bind(sockfd, sockaddr, addrlen) => [sockfd, sockaddr, addrlen]
    case Listen(sockfd, backlog) => [sockfd, backlog]
    case Fork => []
    case Execve(pathname, argv, envp) => [pathname, argv, envp]
    case Exit(status) => [status]
    case Wait4(pid, wstatus, options, rusage) => [pid, wstatus, options, rusage]
    case Kill(pid, sig) => [pid, sig]
    case Gettid => []
    case ExitGroup(status) => [status]
    case Openat(dirfd, pathname, flags, mode) => [dirfd, pathname, flags, mode]
  }

  lemma CastRoundTrips(v: u64)
    ensures AsI32(AsU64(AsI32(v))) == AsI32(v)
    ensures AsU32(AsU64(AsU32(v))) == AsU32(v)
    ensures AsU64(AsI64(v)) == v
    ensures AsU64(v) == v
  {
  }

  lemma ReadArgsAre(ws: seq<Width>, vs: seq<u64>, args: seq<int>)
    requires |ws| == |args| <= |vs|
    requires forall i :: 0 <= i < |ws| ==> args[i] == ReadAt(ws[i], vs[i])
    ensures ReadArgs(ws, vs) == args
  {
  }

  lemma HookSeesKernelViewLow(r: SyscallRegs)
    requires r.rax <= 12 && Typed(r).Some?
    ensures Prototype(r.rax).Some? && ReadArgs(Prototype(r.rax).value, ArgRegs(r)) == MethodArgs(Typed(r).value)
  {
    CastRoundTrips(r.rsi);
    CastRoundTrips(r.r9);
    ReadArgsAre(Prototype(r.rax).value, ArgRegs(r), MethodArgs(Typed(r).value));
  }

  lemma HookSeesKernelViewMid(r: SyscallRegs)
    requires 12 < r.rax <= 50 && Typed(r).Some?
    ensures Prototype(r.rax).Some? && ReadArgs(Prototype(r.rax).value, ArgRegs(r)) == MethodArgs(Typed(r).value)
  {
    ReadArgsAre(Prototype(r.rax).value, ArgRegs(r), MethodArgs(Typed(r).value));
  }

  lemma HookSeesKernelViewHigh(r: SyscallRegs)
    requires 50 < r.rax && Typed(r).Some?
    ensures Prototype(r.rax).Some? && ReadArgs(Prototype(r.rax).value, ArgRegs(r)) == MethodArgs(Typed(r).value)
  {
    ReadArgsAre(Prototype(r.rax).value, ArgRegs(r), MethodArgs(Typed(r).value));
  }

  /** A hook method sees exactly what the kernel would see. */
  lemma HookSeesKernelView(r: SyscallRegs)
    requires Typed(r).Some?
    ensures Prototype(r.rax).Some? && ReadArgs(Prototype(r.rax).value, ArgRegs(r)) == MethodArgs(Typed(r).value)
    ensures KernelView(r) == View(r.rax, MethodArgs(Typed(r).value))
  {
    if r.rax <= 12 {
      HookSeesKernelViewLow(r);
    } else if r.rax <= 50 {
      HookSeesKernelViewMid(r);
    } else {
      HookSeesKernelViewHigh(r);
    }
  }

  /** A default method puts its arguments, widened, into the argument registers in order. */
  lemma DefaultRegsArgs(c: TypedCall)
    ensures |MethodArgs(c)| <= 6
    ensures forall i :: 0 <= i < |MethodArgs(c)| ==> ArgRegs(DefaultRegs(c))[i] == AsU64(MethodArgs(c)[i])
  {
  }

  /** Narrowing and widening lose nothing the kernel reads: the block built by the default method gives the
      kernel the same view as the caller's block, for all register values. */
  lemma DefaultKeepsView(r: SyscallRegs)
    requires Typed(r).Some?
    ensures KernelView(DefaultRegs(Typed(r).value)) == KernelView(r)
  {
    var c := Typed(r).value;
    var ws := Prototype(r.rax).value;
    HookSeesKernelView(r);
    SameNumber(r);
    DefaultRegsArgs(c);
    forall i | 0 <= i < |ws|
      ensures ReadAt(ws[i], ArgRegs(DefaultRegs(c))[i]) == MethodArgs(c)[i]
    {
      assert ReadArgs(ws, ArgRegs(r))[i] == MethodArgs(c)[i];
      CastRoundTrips(ArgRegs(r)[i]);
    }
    ReadArgsAre(ws, ArgRegs(DefaultRegs(c)), MethodArgs(c));
  }

  /** Which method a system call number reaches, and that its default issues the call of that number again. */
  lemma MethodOfNumber(r: SyscallRegs)
    ensures Typed(r).Some? ==>
              var c := Typed(r).value;
                && (c.Read? <==> r.rax == 0) && (c.Write? <==> r.rax == 1) && (c.Open? <==> r.rax == 2)
                && (c.Close? <==> r.rax == 3) && (c.Lseek? <==> r.rax == 8) && (c.Mmap? <==> r.rax == 9)
                && (c.Mprotect? <==> r.rax == 10) && (c.Munmap? <==> r.rax == 11) && (c.Brk? <==> r.rax == 12)
                && (c.Ioctl? <==> r.rax == 16) && (c.Access? <==> r.rax == 21) && (c.Pipe? <==> r.rax == 22)
                && (c.Dup? <==> r.rax == 32) && (c.Dup2? <==> r.rax == 33) && (c.Getpid? <==> r.rax == 39)
                && (c.Socket? <==> r.rax == 41) && (c.Connect? <==> r.rax == 42) && (c.Accept? <==> r.rax == 43)
                && (c.Bind? <==> r.rax == 49) && (c.Listen? <==> r.rax == 50) && (c.Fork? <==> r.rax == 57)
                && (c.Execve? <==> r.rax == 59) && (c.Exit? <==> r.rax == 60) && (c.Wait4? <==> r.rax == 61)
                && (c.Kill? <==> r.rax == 62) && (c.Gettid? <==> r.rax == 186) && (c.ExitGroup? <==> r.rax == 231)
                && (c.Openat? <==> r.rax == 257)
                && DefaultRegs(c).rax == r.rax
  {
    hide AsI32, AsU32, AsI64, AsU64;
  }

  lemma SameNumber(r: SyscallRegs)
    requires Typed(r).Some?
    ensures DefaultRegs(Typed(r).value).rax == r.rax
  {
    hide Typed, DefaultRegs;
    if r.rax <= 12 {
      BlockLow(r);
    } else if r.rax <= 50 {
      BlockMid(r);
    } else {
      BlockHigh(r);
    }
  }

  // ---------------------------------------------------------------------
  // The dispatcher with every method left at its default
  // ---------------------------------------------------------------------

  datatype Reply = Returned(value: u64) | NoReturn

  /** The log of kernel calls so far, and the reply to the caller. */
  datatype Issued = Issued(log: seq<SyscallRegs>, reply: Reply)

  /** A kernel answers according to the calls made so far and the current register block. */
  type Kernel = (seq<SyscallRegs>, SyscallRegs) -> u64

  function RawSyscall(kernel: Kernel, log: seq<SyscallRegs>, r: SyscallRegs): Issued {
    Issued(log + [r], Returned(kernel(log, r)))
  }

  /** The cast of the kernel result to the method's return type and back to a 64-bit register. */
  function Convert(t: RetType, v: u64): Reply {
    match t
    case RetInt => Returned(AsU64(AsI32(v)))
    case RetWord => Returned(AsU64(AsI64(v)))
    case RetNever => NoReturn
  }

  function DefaultMethod(kernel: Kernel, log: seq<SyscallRegs>, c: TypedCall): Issued {
    var raw := RawSyscall(kernel, log, DefaultRegs(c));
    Issued(raw.log, Convert(ReturnType(c), raw.reply.value))
  }

  function DispatchDefaults(kernel: Kernel, log: seq<SyscallRegs>, r: SyscallRegs): Issued {
    match Typed(r)
    case Some(c) => DefaultMethod(kernel, log, c)
    case None => RawSyscall(kernel, log, r)
  }

  /** The block the dispatcher sends to the kernel. */
  function DispatchedRegs(r: SyscallRegs): SyscallRegs {
    match Typed(r)
    case Some(c) => DefaultRegs(c)
    case None => r
  }

  lemma DispatchLog(kernel: Kernel, log: seq<SyscallRegs>, r: SyscallRegs)
    ensures DispatchDefaults(kernel, log, r).log == log + [DispatchedRegs(r)]
  {
  }

  /** The kernel reads its arguments at their declared widths. */
  ghost predicate HonoursPrototypes(kernel: Kernel) {
    forall log, a, b {:trigger kernel(log, a), kernel(log, b)} ::
      KernelView(a) == KernelView(b) ==> kernel(log, a) == kernel(log, b)
  }

  /** The result survives the method's return type: a 32-bit method keeps exactly the results in the range of a
      C int, and the two exit calls never return. */
  predicate ResultFits(nr: u64, v: u64) {
    if nr in {60, 231} then false
    else if nr in {0, 1, 8, 9} || Prototype(nr).None? then true
    else v < TWO31 || v >= TWO64 - TWO31
  }

  lemma ReturnTypeOf(r: SyscallRegs)
    requires Typed(r).Some?
    ensures ReturnType(Typed(r).value) ==
            if r.rax in {60, 231} then RetNever else if r.rax in {0, 1, 8, 9} then RetWord else RetInt
  {
    hide AsI32, AsU32, AsI64, AsU64;
  }

  lemma FitsIsRoundTrip(r: SyscallRegs, v: u64)
    requires Typed(r).Some?
    ensures Convert(ReturnType(Typed(r).value), v) == Returned(v) <==> ResultFits(r.rax, v)
  {
    CastRoundTrips(v);
    UntypedHasNoPrototype(r);
    ReturnTypeOf(r);
    hide Typed, ReturnType, Prototype;
  }

  /** The low 32 bits of a word, sign-extended to 64. */
  function SignExt32(v: u64): u64 {
    if v % TWO32 < TWO31 then v % TWO32 else v % TWO32 + (TWO64 - TWO32)
  }

  /** A register as an argument of the given width leaves it. */
  function Narrowed(ws: seq<Width>, vs: seq<u64>, i: nat): u64
    requires i < |vs|
  {
    if i >= |ws| then 0
    else match ws[i]
         case S32 => SignExt32(vs[i])
         case U32 => vs[i] % TWO32
         case W64 => vs[i]
  }

  /** Which register block reaches the kernel and what the caller gets back, by number and prototype: arguments at
      their widths, the other registers zero; a result cut to 32 bits and sign-extended except for the four calls
      that return a word; none from the two exits. Numbers without a method go through unchanged. */
  lemma DispatchExactly(kernel: Kernel, log: seq<SyscallRegs>, r: SyscallRegs)
    ensures var d := DispatchDefaults(kernel, log, r);
            match Prototype(r.rax)
            case Some(ws) =>
              var vs := ArgRegs(r);
              var b := SyscallRegs(r.rax, Narrowed(ws, vs, 0), Narrowed(ws, vs, 1), Narrowed(ws, vs, 2),
                                   Narrowed(ws, vs, 3), Narrowed(ws, vs, 4), Narrowed(ws, vs, 5));
              && d.log == log + [b]
              && d.reply == (if r.rax in {60, 231} then NoReturn
                             else if r.rax in {0, 1, 8, 9} then Returned(kernel(log, b))
                             else Returned(SignExt32(kernel(log, b))))
            case None => d.log == log + [r] && d.reply == Returned(kernel(log, r))
  {
    UntypedHasNoPrototype(r);
    if Typed(r).Some? {
      ReturnTypeOf(r);
      if r.rax <= 12 {
        BlockLow(r);
      } else if r.rax <= 50 {
        BlockMid(r);
      } else {
        BlockHigh(r);
      }
      ConvertExactly(kernel(log, DefaultRegs(Typed(r).value)));
      hide Typed, DefaultRegs, ReturnType, Prototype, Narrowed, SignExt32, AsI32, AsI64, AsU64;
    }
  }

  lemma ConvertExactly(v: u64)
    ensures Convert(RetInt, v) == Returned(SignExt32(v)) && Convert(RetWord, v) == Returned(v)
  {
    CastRoundTrips(v);
  }

  /** What a default sends is the caller's block, narrowed. */
  ghost predicate BlockIsNarrowed(r: SyscallRegs) {
    && Typed(r).Some? && Prototype(r.rax).Some?
    && var ws, vs := Prototype(r.rax).value, ArgRegs(r);
       DefaultRegs(Typed(r).value) ==
       SyscallRegs(r.rax, Narrowed(ws, vs, 0), Narrowed(ws, vs, 1), Narrowed(ws, vs, 2),
                   Narrowed(ws, vs, 3), Narrowed(ws, vs, 4), Narrowed(ws, vs, 5))
  }

  lemma CastsNarrow()
    ensures forall v: u64 {:trigger AsI32(v)} :: AsU64(AsI32(v)) == SignExt32(v)
    ensures forall v: u64 {:trigger AsU32(v)} :: AsU64(AsU32(v)) == v % TWO32
    ensures forall v: u64 {:trigger AsI64(v)} :: AsU64(AsI64(v)) == v
  {
    forall v: u64
      ensures AsU64(AsI64(v)) == v
    {
      CastRoundTrips(v);
    }
  }

  lemma BlockLow(r: SyscallRegs)
    requires Typed(r).Some? && r.rax <= 12
    ensures BlockIsNarrowed(r)
  {
    CastsNarrow();
    hide AsI32, AsU32, AsI64, AsU64, SignExt32;
  }

  lemma BlockMid(r: SyscallRegs)
    requires Typed(r).Some? && 12 < r.rax <= 50
    ensures BlockIsNarrowed(r)
  {
    CastsNarrow();
    hide AsI32, AsU32, AsI64, AsU64, SignExt32;
  }

  lemma BlockHigh(r: SyscallRegs)
    requires Typed(r).Some? && 50 < r.rax
    ensures BlockIsNarrowed(r)
  {
    CastsNarrow();
    hide AsI32, AsU32, AsI64, AsU64, SignExt32;
  }

  /** With every method at its default the dispatcher makes exactly one kernel call, the kernel learns from it
      what it would have learnt from the caller's registers, and the caller gets the kernel's own answer exactly
      when that answer fits the method's return type. */
  lemma DispatchTransparent(kernel: Kernel, log: seq<SyscallRegs>, r: SyscallRegs)
    ensures var d := DispatchDefaults(kernel, log, r);
            exists issued :: d.log == log + [issued] && KernelView(issued) == KernelView(r)
    ensures HonoursPrototypes(kernel) ==>
              (DispatchDefaults(kernel, log, r).reply == Returned(kernel(log, r)) <==> ResultFits(r.rax, kernel(log, r)))
  {
    var d := DispatchDefaults(kernel, log, r);
    match Typed(r)
    case Some(c) =>
      DefaultKeepsView(r);
      FitsIsRoundTrip(r, kernel(log, r));
      assert d.log == log + [DefaultRegs(c)];
    case None =>
      UntypedHasNoPrototype(r);
      assert d.log == log + [r];
  }

  lemma UntypedHasNoPrototype(r: SyscallRegs)
    ensures Typed(r).None? <==> Prototype(r.rax).None?
  {
  }

  /** The condition is not vacuous: `brk` returns an address, its method returns a C int, and a heap address
      above 2 GiB comes back truncated. */
  lemma BrkIsTruncated(kernel: Kernel, log: seq<SyscallRegs>, addr: u64)
    requires kernel(log, SyscallRegs(12, addr, 0, 0, 0, 0, 0)) == 0x5555_5555_6000
    ensures DispatchDefaults(kernel, log, SyscallRegs(12, addr, 0, 0, 0, 0, 0)).reply == Returned(0x5555_6000)
    ensures !ResultFits(12, 0x5555_5555_6000)
  {
  }
}
