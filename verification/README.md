# NetBSD compatibility kernel: a verified model

A Dafny model of the parts of this NetBSD source tree where old programs meet a
new kernel and the code in between keeps state: directory streams re-encoded for
older record layouts, union mounts read from top to bottom, the ATM flow map of
ALTQ, the interface list, the old terminal flags, old a.out images, and the
bit-level macros of four public headers. The theorems are about whole runs of
calls, and about every input, buffer size and failure the code admits.

| module | what it holds |
|---|---|
| `Bytes`, `Kernel`, `Vfs` | byte strings and both byte orders, 32-bit `int`, copyout, directory records, the VOP_READDIR contract, vnodes and files |
| `Getdents30`, `GetdentsRun` | compat_30_sys_getdents as it runs, and what any run of calls delivers |
| `Getdirentries43`, `GetdirentriesRun` | compat_43_sys_getdirentries as it runs, and what any run delivers from a union stack |
| `Lstat43` | compat_43_sys_lstat: locks and references on two vnodes |
| `AfMapSpec`, `AfMap` | the flow map as a table, and the linked lists that implement it |
| `IfConfSpec`, `IfConf` | compat_ifconf: the records, the budget, and the two loops |
| `Tty43`, `TtyDriver` | the old flag word over four termios words, and ttcompat as it runs |
| `AoutExec` | old OMAGIC and NMAGIC loading |
| `FlagsXlat`, `Stdio`, `BitString`, `NameSer`, `Uname09` | emul_flags_translate, __sputc, bit strings and NXT bitmaps, DNS integers, the uname version text |

Code that changes things in place is modelled by classes and methods with loops;
each is proved against a function of its inputs or old state, and lemmas about
that function say what it promises. Flag words and translation tables are sets of
bit positions, which loses nothing as all operations on them are bitwise. Calls
into other kernel code are contracts: VOP_READDIR returns whole records (or, for
one-call results, anything at all), copyout fails past an address and may have
stored a part, `__swbuf` restores the documented FILE state, and ttioctl is
modelled from its own source.

## What holds, and exactly when

Some natural claims hold only under a condition. Each is proved as an equivalence.

- **getdents** moves the offset before it looks whether the entry fits
  (src/common/vfs_syscalls_30.c:274-292), and keeps the space left in an `int`. A
  call delivers what it read if and only if its count is not negative as an `int`;
  otherwise, as for 2 GB, every call skips one entry. Where size_t has 64 bits a
  count such as 2^32 + 65536 delivers but returns a wrong number: the number is
  right, too, if and only if the count is below 2 GB. The exit "entry too big" is
  never taken on whole records and such counts, and `goto again` never on any data.
- **getdirentries** stores the new offset before it copies out the data and *basep,
  and takes a read without data for the end of a layer. With reads that do not fail and
  a buffer as long as its count, a call loses no entry if and only if nothing is left,
  or the next record fits the count and *basep can be written, or it does not fit and
  is in the last layer; the condition without these two assumptions is proved, too. A
  count of zero falls through to the bottom layer. The comments in the rewrite loop
  speak of d_type and d_namlen as two neighbouring bytes; in struct dirent
  (src/sys/sys/dirent.h:49-60) d_namlen is two bytes wide and comes first. The model
  follows the code on that structure.
- **lstat** lets go of everything it took if and only if namei returned the
  directory it asked for. The comment at src/common/vfs_syscalls_43.c:147-154
  expects EISDIR for the root; lookup() has no such error and succeeds there without
  a directory (src/sys/kern/vfs_lookup.c:862-881). A link's permission bits are its
  directory's, though the comment at lines 157-160 excepts the mode.
- **ifconf** writes the longest prefix of the records that fits if and only if the
  budget, a 32-bit `int` that goes on shrinking, does not wrap around before it is
  last compared.
- **tty**: pending input cannot be cleared by TIOCLSET or TIOCLBIC (ttioctl puts
  PENDIN back); writing back the low word just read changes nothing if and only if a
  raw terminal has DECCTQ on; a failed ioctl is visible if and only if the terminal is
  raw and LITOUT or PASS8 was to change.
- **old a.out**: the machine's arithmetic gives what unbounded arithmetic gives if and
  only if stated sums of the header do not wrap around. For NMAGIC, mapped pages equal
  the pages of text and data for every header if and only if AOUT_LDPGSZ is a multiple
  of the page size.
- **emul_flags_translate**: the outcome does not depend on the order of the table,
  whatever its values and the word, if and only if its masks are pairwise disjoint.
- **uname**: the loops stay inside the version string if and only if it holds a '('.

## Model

| member | source | states |
|---|---|---|
| `Getdents30.Getdents` | src/common/vfs_syscalls_30.c:204-331 | for any descriptor, any 32- or 64-bit count, user buffer and data read: error, return value, bytes stored and new f_offset are those of one specified call; on every exit but the panic the lock and the descriptor are given back and f_data stays; on every error f_offset stays |
| `Getdents30.ReadAndConvert` | src/common/vfs_syscalls_30.c:243-324 | the part under the vnode lock, with the `again` loop, which is entered once |
| `Getdents30.Convert` | src/common/vfs_syscalls_30.c:263-310 | the conversion loop over arbitrary, also malformed, bytes equals the recursive pass: same stop, error or panic, offset, space left and user bytes |
| `Getdents30.ScanMoves` | src/common/vfs_syscalls_30.c:312-318 | a pass over a nonempty buffer that ends without error has moved the user pointer, so the block is never read again; space used and bytes given balance |
| `Getdents30.BufLen` | src/common/vfs_syscalls_30.c:241-242 | what is asked of VOP_READDIR: the count modulo 2^32, up to 0x10000 |
| `Getdents30.Encode12` | src/common/vfs_syscalls_30.c:287-302 | the old record has the size of its name's, and NULs after the name |
| `Getdents30.BadLengthPanics` | src/common/vfs_syscalls_30.c:271-273 | a record length that is no multiple of 8 panics |
| `GetdentsRun.NativeConverted` | src/common/vfs_syscalls_30.c:283-300 | a native record put together from its fields is converted to its inode number modulo 2^32, its type, and the first 255 bytes of its name |
| `GetdentsRun.RecordAt` | src/common/vfs_syscalls_30.c:270-302 | a whole record is re-encoded as inode cut to 32 bits, type, and name cut to 255 bytes and zero-padded, in no more space than it took |
| `GetdentsRun.DecodeAllEncodeAll` | src/common/vfs_syscalls_30.c:287-309 | an old program parsing the bytes record by record gets back exactly the entries encoded |
| `GetdentsRun.ScanTiled` | src/common/vfs_syscalls_30.c:269-310 | over whole records the too-big exit is not taken; the pass fails exactly when an offset exceeds 32 bits or the user's memory ends, and otherwise delivers every record once, in order |
| `GetdentsRun.ScanFailsAt` | src/common/vfs_syscalls_30.c:274-309 | where a pass over whole records fails and with which error: EINVAL (22) at the first offset beyond 32 bits, EFAULT (14) at the first record the user's memory does not hold, with all before it stored |
| `GetdentsRun.CallFailsAt` | src/common/vfs_syscalls_30.c:258-331 | the same for the call |
| `GetdentsRun.CallDelivers` | src/common/vfs_syscalls_30.c:241-322 | with a count that is not negative as an int, one call on a valid directory delivers all records read and leaves f_offset just after the last, or fails |
| `GetdentsRun.HugeCountLosesEntry` | src/common/vfs_syscalls_30.c:265-292 | with a count that is negative as an int the call gives 0 bytes and moves past one entry |
| `GetdentsRun.DeliversIffCountFits` | src/common/vfs_syscalls_30.c:265-319 | a call that could succeed delivers what it read if and only if (int)count >= 0, and also returns how much that is if and only if count < 2^31 |
| `GetdentsRun.ReturnedRightIff` | src/common/vfs_syscalls_30.c:322-322 | the number returned is the number of bytes given if and only if count < 2^31 or count is within 2^31 of the end of size_t |
| `GetdentsRun.EndReturnsZeroIff` | src/common/vfs_syscalls_30.c:265-267 | so the end of the directory is returned as 0 under that condition only |
| `GetdentsRun.WholeRun` | src/common/vfs_syscalls_30.c:241-322 | after any sequence of calls, whatever their counts and whichever fail, the file has moved from entry i to j; the program has exactly the converted entries between, each once and in order, if and only if no call skipped one; every successful call returns the length of what it gave if and only if the counts are in range; as many successful calls as entries, with counts no shorter than any record, reach the end |
| `GetdentsRun.SmallCounts` | src/common/vfs_syscalls_30.c:265-322 | counts below 2 GB are enough for both |
| `GetdentsRun.OneStep` | src/common/vfs_syscalls_30.c:241-322 | one call moves from an entry to a later one and gives those between, or, with a count that is negative as an int, may skip one and give nothing; the number it returns is right exactly for a count in range; a successful call moves if the next record is no longer than the count and 0x10000 |
| `GetdentsRun.RunReadsBack` | src/common/vfs_syscalls_30.c:287-309 | the concatenated output of a run parses to exactly those entries |
| `Getdirentries43.Rewrite` | src/common/vfs_syscalls_43.c:396-426 | the rewrite loop ends on any bytes, also with a record length of zero, then with EIO; contents equal the recursive walk |
| `Getdirentries43.RewriteKeeps` | src/common/vfs_syscalls_43.c:400-416 | per byte order: on little-endian d_type takes the low byte of d_namlen and d_namlen becomes 0, on big-endian d_type becomes 0; inode, record length and name stay, so record boundaries do |
| `Getdirentries43.NativeRewritten` | src/common/vfs_syscalls_43.c:400-416 | the rewrite of a native record put together from its fields, byte by byte |
| `Getdirentries43.WalkTiled` | src/common/vfs_syscalls_43.c:396-424 | over whole records the walk ends at the end, rewrites each record and nothing else |
| `Getdirentries43.WalkStops` | src/common/vfs_syscalls_43.c:417-423 | whole records followed by one of length zero end the walk short of the end |
| `Getdirentries43.ZeroLengthFails` | src/common/vfs_syscalls_43.c:396-427 | such data gives EIO (5) and the user nothing |
| `Getdirentries43.Asked` | src/common/vfs_syscalls_43.c:351-351 | what is asked of VOP_READDIR: the count modulo 2^32, up to 0x10000 |
| `Getdirentries43.Getdirentries` | src/common/vfs_syscalls_43.c:337-451 | for any stack, count and user memory: every lock is released, the descriptor put once, every vnode's references other than the file's own are as before and the file holds one on its current vnode; error, layer, offset, bytes and *basep are those of the specified call; EINVAL (22) and no change for what is no directory |
| `Getdirentries43.ReadUnion` | src/common/vfs_syscalls_43.c:364-447 | the same from `unionread:` on; the descent ends with the stack |
| `Getdirentries43.ReadLocked` | src/common/vfs_syscalls_43.c:377-430 | a layer is read under its lock, which is released, failing or not |
| `Getdirentries43.Descend` | src/common/vfs_syscalls_43.c:437-443 | one step down moves the file's single reference and resets the offset |
| `Getdirentries43.ReadOne` | src/common/vfs_syscalls_43.c:379-429 | one layer read into user memory equals the specified read, in both byte orders; where VOP_READDIR writes to user memory itself, a fault leaves the offset wherever it stopped |
| `GetdirentriesRun.ReadLayerDelivers` | src/common/vfs_syscalls_43.c:379-429 | one read of a valid directory gives the rewritten records it consumed, or EFAULT with the offset moved all the same, unless VOP_READDIR met the fault and left it |
| `GetdirentriesRun.ReadConservesIffFits` | src/common/vfs_syscalls_43.c:386-427 | what was read and what is left make up the whole if and only if the data fits, or VOP_READDIR met the fault itself and has not moved the offset |
| `GetdirentriesRun.CallConservesIff` | src/common/vfs_syscalls_43.c:364-447 | one call over a union stack delivers the next records of one layer, from the offset *basep reports on; what the program receives and what is left make up what there was if and only if the call is lossless: a failing read has not moved the offset, the descent leaves no unread record behind, and what is read reaches the user with its *basep; otherwise there is less |
| `GetdirentriesRun.CallError` | src/common/vfs_syscalls_43.c:381-446 | the error of a call: that of the last read, EFAULT (14) for data or *basep, or none |
| `GetdirentriesRun.LosslessIffNextFits` | src/common/vfs_syscalls_43.c:434-447 | where reads do not fail and the buffer is as long as the count, that is so if and only if nothing is left, or the next record fits the count and *basep can be written, or it does not fit and is in the last layer |
| `GetdirentriesRun.CallDelivers` | src/common/vfs_syscalls_43.c:364-447 | a call whose count has room for the next record, in whatever layer it is, delivers it; the program receives nothing exactly if *basep cannot be written or nothing was left |
| `GetdirentriesRun.UserCountDelivers` | src/common/vfs_syscalls_43.c:351-447 | the same for the count as the program gives it, if the next record is no longer than 0x10000 |
| `GetdirentriesRun.WholeRun` | src/common/vfs_syscalls_43.c:364-447 | for any run of calls, whatever their counts and buffers and whichever fail: the bytes received followed by what is left equal what there was to read if and only if every call was lossless where it was made; a run never gives more than there was |
| `GetdirentriesRun.RunReachesEnd` | src/common/vfs_syscalls_43.c:364-447 | a run whose calls have room for their next record and can report *basep loses nothing, and enough calls leave nothing |
| `GetdirentriesRun.NothingLeft` | src/common/vfs_syscalls_43.c:434-444 | no record left if and only if no byte is left, over all layers below |
| `GetdirentriesRun.ZeroCountSkipsLayers` | src/common/vfs_syscalls_43.c:434-444 | a count of zero drops to the bottom layer and delivers nothing |
| `Lstat43.Lstat` | src/common/vfs_syscalls_43.c:130-194 | on every return every vnode has the references it came with and is unlocked; the call returns if and only if the directory it releases was returned by namei, so never for a root found without one; EISDIR (21) is retried once; field by field: links modulo 2^16, size (-2 from 2^32 on) and blocks are the link's, the rest and the permissions its directory's; all are its own for what is no link; each error is that of the first lookup, attributes or copy that fails |
| `Lstat43.Gather` | src/common/vfs_syscalls_43.c:161-190 | both branches read attributes only of held and locked vnodes and give up exactly what is held, also when a directory is its own parent |
| `Lstat43.Namei` | src/sys/kern/vfs_lookup.c:489-509 | the contract of namei with LOCKLEAF and LOCKPARENT |
| `Lstat43.LinkTypeIff` | src/common/vfs_syscalls_43.c:185-189 | the mode says "symbolic link" if and only if the directory's type has no foreign bit; permissions are the directory's |
| `AfMap.FlowMap.Alloc` | src/sys/altq/altq_afmap.c:82-100 | the chain stays well linked and gains one fresh, empty list in front; no other list changes |
| `AfMap.FlowMap.Dealloc` | src/sys/altq/altq_afmap.c:102-120 | the newest list of the interface is emptied, unlinked and freed once; -1 and no change if there is none |
| `AfMap.FlowMap.Top` | src/sys/altq/altq_afmap.c:122-135 | the first node of the visible list, NULL exactly if it is empty |
| `AfMap.FlowMap.Add` | src/sys/altq/altq_afmap.c:137-172 | each error in its order, with nothing changed; otherwise one fresh node in front of the visible list |
| `AfMap.FlowMap.Attach` | src/sys/altq/altq_afmap.c:165-171 | the node joins one list, all structure and all other lists are kept |
| `AfMap.FlowMap.Remove` | src/sys/altq/altq_afmap.c:174-180 | exactly this node leaves its list, wherever it is, and is freed, never twice |
| `AfMap.RemoveRule` | src/sys/sys/queue.h:155-162 | LIST_REMOVE by links alone leaves a well-linked list without the node |
| `AfMap.AfmHead.InsertRule` | src/sys/sys/queue.h:147-153 | LIST_INSERT_HEAD leaves a well-linked list with the node in front |
| `AfMap.FlowMap.UnlinkHead` | src/sys/sys/queue.h:155-162 | the same removal on the chain of heads |
| `AfMap.FlowMap.RemoveAll` | src/sys/altq/altq_afmap.c:182-198 | ends with the visible list empty; every node it held is freed, no other touched |
| `AfMap.FlowMap.Lookup` | src/sys/altq/altq_afmap.c:200-218 | the node at the first position of the visible list with this vpi and vci, NULL exactly if none |
| `AfMapSpec.FindVc` | src/sys/altq/altq_afmap.c:213-216 | the first position with this vpi and vci, the length exactly if there is none |
| `AfMapSpec.FindMatch` | src/sys/altq/altq_afmap.c:225-245 | the first position that matches, the length exactly if there is none; the rule there is the declarative match |
| `AfMap.FlowMap.Match4` | src/sys/altq/altq_afmap.c:220-246 | the node at the first position whose every nonzero field equals the flow's, NULL exactly if none |
| `AfMap.FlowMap.Match` | src/sys/altq/altq_afmap.c:287-312 | for an IPv4 flow the node at the first matching position of the visible list, NULL for none and for other families |
| `AfMapSpec.FirstMatchIsMatch` | src/sys/altq/altq_afmap.c:225-245 | the answer meets the declarative meaning of a match |
| `AfMapSpec.MatchUnique` | src/sys/altq/altq_afmap.c:225-245 | that meaning has one answer only |
| `AfMapSpec.MatchesFields` | src/sys/altq/altq_afmap.c:227-241 | a match is: each of addresses, ports and protocol is zero in the rule or equal to the flow's |
| `AfMapSpec.AddThenMatch` | src/sys/altq/altq_afmap.c:137-172 | after adding r a match gives r if r matches, otherwise the former answer |
| `AfMapSpec.StepRefinesStack` | src/sys/altq/altq_afmap.c:82-198 | one call on the table is one step of the stack of its interface and none of any other |
| `AfMapSpec.RunRefinesStacks` | src/sys/altq/altq_afmap.c:82-198 | over any run of calls what one interface sees depends on its own calls only |
| `AfMapSpec.StackRunKeepsBase` | src/sys/altq/altq_afmap.c:82-120 | a run that stays above the bottom n lists leaves them intact |
| `AfMapSpec.DeallocReveals` | src/sys/altq/altq_afmap.c:82-120 | a second alloc hides the older list; after any run above it the matching dealloc brings the old list back intact |
| `IfConf.CompatIfconf` | src/common/uipc_syscalls_40.c:34-114 | success exactly if every name is short and all that is written fits the user's memory; then bytes written and length reported are the specified ones; on error the length stays |
| `IfConf.EmitAddrs` | src/common/uipc_syscalls_40.c:64-107 | the inner loop; written bytes equal the charged records so far, and EFAULT means the records do not fit the user's memory |
| `IfConf.Emit` | src/common/uipc_syscalls_40.c:66-106 | one record: budget, cursor and ifr_addr move together |
| `IfConfSpec.AddressRecord` | src/common/uipc_syscalls_40.c:47-107 | the record of the j-th address of the i-th interface, at its place among the records: the name and NULs, then the address as it is, or for the old command its family as a 16-bit number and its rest, or zeros for an interface without addresses |
| `IfConfSpec.RecordContent` | src/common/uipc_syscalls_40.c:48-107 | the same for the n-th item of the loops |
| `IfConfSpec.ItemAt` | src/common/uipc_syscalls_40.c:47-64 | which item an address is |
| `IfConfSpec.IfrAddr` | src/common/uipc_syscalls_40.c:53-84 | what ifr_addr keeps from the item before |
| `IfConfSpec.ReportsTotal` | src/common/uipc_syscalls_40.c:109-112 | the length reported is the total size of all records, whatever the buffer |
| `IfConfSpec.FittingIsLongestPrefix` | src/common/uipc_syscalls_40.c:77-103 | the greedy prefix is the longest that fits |
| `IfConfSpec.WritesLongestPrefixIff` | src/common/uipc_syscalls_40.c:47-108 | exactly the longest fitting prefix is written if and only if the 32-bit budget does not wrap around |
| `IfConfSpec.WrapWrites` | src/common/uipc_syscalls_40.c:60-106 | where it does wrap, a record is written that does not fit |
| `IfConfSpec.TotalAnyStack` | src/common/uipc_syscalls_40.c:39-39 | what the uninitialised ifr holds changes bytes of records, never their total size |
| `IfConfSpec.ProbeThenFetch` | src/common/uipc_syscalls_40.c:43-113 | a null probe, then a fetch with the length reported, yields every record and exactly that many bytes, though the two calls start with different leftovers in ifr |
| `TtyDriver.Tty.GetFlags` | src/common/tty_43.c:297-360 | the branches compute the reported word |
| `TtyDriver.WordBits` | src/common/tty_43.c:308-356 | each bit of the reported word, from the termios bits |
| `TtyDriver.Tty.SetFlags` | src/common/tty_43.c:362-449 | the branches compute the four wanted words |
| `TtyDriver.Tty.SetLFlags` | src/common/tty_43.c:451-517 | the same for the local modes |
| `TtyDriver.Tty.TtIoctl` | src/sys/kern/tty.c:1009-1083 | what TIOCSETA and TIOCSETAF install, and that a failure installs nothing |
| `TtyDriver.Tty.Set` | src/common/tty_43.c:145-275 | each setting ioctl is one step on termios and cached word, with its error |
| `TtyDriver.Tty.GetP` | src/common/tty_43.c:123-143 | TIOCGETP reports the low half and the speed codes |
| `TtyDriver.Tty.LGet` | src/common/tty_43.c:244-250 | TIOCLGET reports the high half |
| `TtyDriver.Tty.TtSpeedTab` | src/sys/kern/tty.c:2296-2304 | the code of a speed, -1 exactly if the table lacks it |
| `Tty43.LocalStep` | src/common/tty_43.c:220-243 | after a local-mode ioctl the reported word is a function of the word before and the one asked for |
| `Tty43.LowStep` | src/common/tty_43.c:145-168 | the same for TIOCSETP and TIOCSETN |
| `Tty43.LSetBits` | src/common/tty_43.c:230-232 | after a TIOCLSET that succeeds, each reported bit from the argument's: CRTBS follows CRTERA and CRTKIL, two bits are not kept, PENDIN stays |
| `Tty43.LBisBits` | src/common/tty_43.c:233-235 | likewise for TIOCLBIS, which adds the argument's bits |
| `Tty43.LBicBits` | src/common/tty_43.c:236-238 | likewise for TIOCLBIC, which takes them away, but for PENDIN |
| `Tty43.SetBits` | src/common/tty_43.c:145-168 | after a TIOCSETP or TIOCSETN that succeeds, each reported bit from sg_flags and the word before; characters and speeds are reported as set |
| `Tty43.HpclBits` | src/common/tty_43.c:271-275 | TIOCHPCL clears NOHANG only |
| `Tty43.ErrorIs` | src/sys/kern/tty.c:1014-1046 | the error of a setting ioctl, and that a failing one leaves the termios |
| `Tty43.FlagsIBits` | src/common/tty_43.c:374-443 | every bit of the wanted c_iflag |
| `Tty43.FlagsCBits` | src/common/tty_43.c:395-443 | every bit of the wanted c_cflag, with CS7 or CS8 |
| `Tty43.StepRefines` | src/common/tty_43.c:145-275 | one ioctl on the real representation, failing or not, is one step of a machine that has only what programs can see |
| `Tty43.RunRefines` | src/common/tty_43.c:119-295 | so is every run of ioctls |
| `Tty43.LocalReadsBackIff` | src/common/tty_43.c:220-250 | the low half stays; the local word reads back in canonical form if and only if PENDIN is not to be cleared |
| `Tty43.LowReadsBack` | src/common/tty_43.c:145-168 | the low word reads back in canonical form: XTABS all or nothing, CBREAK and parity dropped under RAW |
| `Tty43.ReportedIsCanonical` | src/common/tty_43.c:308-356 | every reported word is canonical |
| `Tty43.GetThenSet` | src/common/tty_43.c:123-168 | setting the local word just read changes nothing; the low word, if and only if a raw terminal has DECCTQ |
| `Tty43.EightSurvives` | src/common/tty_43.c:331-338 | LITOUT and PASS8 survive any run of TIOCSETP and TIOCSETN, through raw mode and failures |
| `Tty43.FailureVisibleIff` | src/common/tty_43.c:163-167 | when an ioctl that returns an error, from waiting or from the driver, changes what is reported |
| `Tty43.SpeedReadsBack` | src/common/tty_43.c:108-111 | every speed code set is reported again |
| `Tty43.Bauds` | src/common/tty_43.c:108-111 | the speeds, by code |
| `Tty43.UnknownSpeed` | src/common/tty_43.c:130-137 | a speed the table lacks is reported as code 17 |
| `AoutExec.ExecPackage.PrepOldOmagic` | src/common/compat_exec.c:141-176 | every field and command in the arithmetic of a 32- or 64-bit u_long; for a header that fits, the image is the file's text and data and a zeroed bss, no page is mapped twice, and the page identity for obreak(2) holds |
| `AoutExec.ExecPackage.PrepOldNmagic` | src/common/compat_exec.c:99-128 | the same for NMAGIC when the page size divides AOUT_LDPGSZ |
| `AoutExec.OmagicExactIff` | src/common/compat_exec.c:146-174 | the commands and ep_dsize are those of unbounded arithmetic if and only if text + data, the address after them and the rest of the program as a long do not wrap around |
| `AoutExec.OmagicWrapFails` | src/common/compat_exec.c:146-174 | a header that does: 2 GB each of text and data on a 32-bit machine, of which no page is mapped |
| `AoutExec.NmagicExactIff` | src/common/compat_exec.c:104-125 | the same equivalence for NMAGIC |
| `AoutExec.RoundUpUIs` | src/sys/sys/param.h:330-330 | roundup() of a u_long is the true multiple, or 0 past the last address |
| `AoutExec.OmagicPages` | src/common/compat_exec.c:164-174 | pages mapped equal the pages of ep_tsize and of the corrected ep_dsize, for all sizes |
| `AoutExec.OmagicLoads` | src/common/compat_exec.c:152-162 | every byte of text, data and bss is where it belongs, and regions share no page |
| `AoutExec.NmagicLoads` | src/common/compat_exec.c:110-125 | the same for NMAGIC with data at a page boundary |
| `AoutExec.NmagicPages` | src/common/compat_exec.c:104-125 | no correction is needed then |
| `AoutExec.NmagicPagesIff` | src/common/compat_exec.c:104-125 | and only if the page size divides AOUT_LDPGSZ does it hold for every header |
| `FlagsXlat.Translate` | src/common/compat_util.c:123-138 | with n the first entry whose mask is empty, out is the union of new values, leftover the input less the masks, of the first n entries that match in turn |
| `FlagsXlat.AccountsForAll` | src/common/compat_util.c:129-136 | leftover and the matched old values are disjoint and together are the input |
| `FlagsXlat.OrderIrrelevant` | src/common/compat_util.c:129-134 | with disjoint masks a permuted table gives the same result and leftover |
| `FlagsXlat.OverlapMatters` | src/common/compat_util.c:129-134 | two masks that overlap: whatever the other masks, a table with these masks and a word for which swapping the two entries changes the outcome |
| `FlagsXlat.OrderIrrelevantIff` | src/common/compat_util.c:129-134 | for any list of masks: every permutation of every table with these masks gives the same result and leftover, on every word, if and only if the masks are pairwise disjoint |
| `FlagsXlat.ThereAndBack` | src/common/compat_util.c:118-138 | with single flags, back through the swapped table gives exactly the bits translated, with nothing left over |
| `Stdio.File.Sputc` | src/include/stdio.h:441-446 | one put on a stream: the inline form's state and value |
| `Stdio.DirectIsSafe` | src/include/stdio.h:79-92 | a direct store is inside the buffer and never in read mode |
| `Stdio.NewlineFlushes` | src/include/stdio.h:441-446 | on a line-buffered stream a newline (10) goes to `__swbuf`, and any other byte is stored while the buffer has room |
| `Stdio.SpaceStores` | src/include/stdio.h:441-458 | with space left both forms store the byte without a call |
| `Stdio.InlinePuts` | src/include/stdio.h:441-446 | one put keeps the invariants and, unless it fails, appends its byte |
| `Stdio.FormsAgree` | src/include/stdio.h:441-458 | inline and macro agree on value and state but for buffer bytes from `_p` on |
| `Stdio.RunPuts` | src/include/stdio.h:79-92 | for any run and after any number of its puts: the invariants hold, and up to the first failure exactly the bytes put have been appended, in order |
| `Stdio.RunsAgree` | src/include/stdio.h:441-458 | programs compiled with either form get the same values, put after put |
| `Stdio.ContractHasModel` | src/include/stdio.h:445-445 | the contract assumed of `__swbuf` can be met |
| `BitString.NSet` | src/include/bitstring.h:100-108 | exactly the bits start..stop are added, none for an empty range |
| `BitString.NClear` | src/include/bitstring.h:90-98 | exactly the bits start..stop are removed |
| `BitString.OneBit` | src/include/bitstring.h:78-88 | set and clear change the one bit |
| `BitString.Ffs` | src/include/bitstring.h:122-132 | the least set bit below nbits, or -1 exactly if there is none |
| `BitString.FirstClear` | src/include/bitstring.h:110-120 | the least clear bit below nbits, or -1 exactly if there is none |
| `BitString.Ffc` | src/include/bitstring.h:110-120 | the loop finds it |
| `BitString.ClaimsAreDistinct` | src/include/bitstring.h:82-120 | ffc and set repeated hand out free, distinct, growing numbers, and -1 only when all are taken |
| `BitString.HoldsIffBitstrSize` | src/include/bitstring.h:66-68 | an array holds nbits bits, as the routines require, exactly if it has bitstr_size(nbits) bytes |
| `BitString.NxtSet` | src/include/arpa/nameser.h:477-477 | the NXT macro is bit_set on the byte-reversed string |
| `BitString.NxtClear` | src/include/arpa/nameser.h:478-478 | likewise bit_clear |
| `BitString.NxtIsReversed` | src/include/arpa/nameser.h:475-479 | an NXT bitmap (section 5.2 of RFC 2535) is the bit string with each byte's bits reversed |
| `NameSer.Packet.Put16` | src/include/arpa/nameser.h:509-515 | two bytes in network order (section 2.3.2 of RFC 1035), cursor advanced, rest untouched |
| `NameSer.Packet.Put32` | src/include/arpa/nameser.h:517-525 | the same for four |
| `NameSer.Packet.Get16` | src/include/arpa/nameser.h:491-497 | the big-endian value at the cursor |
| `NameSer.Packet.Get32` | src/include/arpa/nameser.h:499-507 | the same for four |
| `NameSer.PutAllFrame` | src/include/arpa/nameser.h:509-525 | any sequence of puts leaves bytes outside its range alone |
| `NameSer.GetAllPutAll` | src/include/arpa/nameser.h:491-525 | any mixed sequence of puts is read back by the same sequence of gets, each value cut to its width |
| `Bytes.ByteAt` | src/include/arpa/nameser.h:509-525 | where each byte of a value is stored, in both byte orders |
| `Uname09.ExtractVersion` | src/common/kern_info_09.c:106-116 | the four loops stay inside the version string if and only if it holds a '('; then the field holds the first 31 characters of the parenthesis and the build number, NUL-terminated, nothing stored beyond |
| `Uname09.Extracted` | src/common/kern_info_09.c:108-115 | where the four loops leave the cursor, the text copied is that text |
| `Uname09.UsualForm` | src/common/kern_info_09.c:108-116 | of `pre(rel)mid#build:post` the text is the first 31 characters of `rel#build` |
| `Uname09.FindStretch` | src/common/kern_info_09.c:108-115 | what a loop passed over and stopped at determines the first occurrence |

## Left out

- IPv6 flow rules: afm_match4 does not look at a rule's family and afm_match6 is
  partly disabled; the model is the build without INET6.
- A failing `malloc(M_WAITOK)` in afm_alloc, which panics; afm_add's is modelled.
- Concurrency: each call is atomic under its lock or spl level; ttywait, signals,
  wakeups and the queue swaps and flushes in ttioctl have no effect on flags.
- `Lstat43.Namei`, VOP_READDIR, vn_stat, kauth, uio and copyout: contracts, not bodies.
  Their inputs are arbitrary within the contract.
- `AoutExec.ExecPackage.PrepOldOmagic`: for a header that wraps around only the
  commands are stated, not the image; page sizes are taken to divide the range of a
  u_long. es_setup_stack is not part of this model, nor is exec_aout_prep_oldzmagic,
  which maps three segments without rounding.
- `Uname09.ExtractVersion`: stops where the source would leave the string; the other
  fields are strncpy calls.
- `GetdentsRun.WholeRun`: what a failed call has stored in the user's buffer counts as
  not received; the directory does not change during the run.
- `GetdirentriesRun.WholeRun`: what a failed call has stored in the user's buffer counts
  as not received; a failing read leaves the offset at this or a later
  record of its directory, as a contract; the directories do not change during the run.
- `Tty43.RunRefines`: terminals whose c_cflag holds CIGNORE, a request bit never kept in
  the installed word, are outside it; background-process checks before the ioctl are
  not modelled.
- `Stdio.File.Sputc`: `__swbuf` is a contract that promises the invariants, and the byte
  put unless it fails; read and unget state is untouched.
- Ioctls TIOCGETC, TIOCSETC, TIOCSLTC, TIOCGLTC, OTIOCGETD, OTIOCSETD, OTIOCCONS and
  TIOCGSID: field copies.
- cvtstat's fields other than mode, links, size and blocks, and the other stat,
  statfs, signal, semaphore and message converters: one assignment per field.
- compat_20_sys_getfsstat, the old socket messages and all pure forwarders.
- Headers that only declare.
