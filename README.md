# passe-partout key carving, modelled in Dafny

This project models the carving core of `passe-partout.c`, the extractor that finds
OpenSSL RSA, DSA and EC private keys and X509 certificates in the memory of a
running process. It reads that memory through a captured memory map: a sequence
of mappings, each with a base address, a size and, once cached, a snapshot of its
bytes. The model covers these parts:

- the address check and the four heuristic gates that decide whether a window of
  a snapshot may be an `RSA`, `DSA`, `EC_KEY` or `X509` structure;
- the BIGNUM extractor, which copies an integer header out of the target and
  resolves its limb pointer;
- the three key assemblers, which replace a candidate's integer pointers in place
  by extracted copies and unwind through goto free-chains. Freed fields are kept
  in a ghost list, so "nothing leaks, nothing is freed twice" can be stated;
- the scan loop `find_keys` over one mapping, including its 64-bit fit checks and
  its 32-bit loop counter;
- the key file-name allocator;
- the certificate branch, which sanitises the subject name into a file name and
  writes a DER certificate by successive appends. A reader for that shape is
  proved to be its inverse, under exactly the conditions the fixed inner lengths
  allow.

Files, one module each:

- `wrappers.dfy`: the `Option` type.
- `memory.dfy`: the map, its lookup, `is_valid_address`, `extract_from_mem`, and
  the snapshot bytes at a location.
- `structs.dfy`: the decoded structure records and the structure sizes. The ABI
  is given as the decoder functions that read a record out of snapshot bytes.
- `gates.dfy`: `might_be_RSA`, `might_be_DSA`, `might_be_X509`, `might_be_ECDSA`.
- `bignum.dfy`: `is_valid_BN`, `BN_extract_from_mem`, in-order extraction with a
  stop at the first failure, and the goto free-chain.
- `rsa_keys.dfy`, `dsa_keys.dfy`, `ec_keys.dfy`: the assemblers and `free_*_key`,
  as classes whose methods update the local structure.
- `filenames.dfy`: `get_valid_filename`.
- `certificates.dfy`: the X509 branch of `find_keys`.
- `scanner.dfy`: `find_keys`.

Behaviours of the code that are easy to misread:

- An RSA key whose `RSA_check_key` answer is not 1 is freed and rejected
  (passe-partout.c:371-400).
- The X509 candidate is tried only under the RSA fit check, and only when no RSA
  key was found at that offset (passe-partout.c:562-576).
- `extract_from_mem` ignores its size argument, so no fragment is bounds-checked
  by the lookup (passe-partout.c:167-176).
- The inner lengths of the DER output are the fixed constants `0x0d` and `0x0101`
  (passe-partout.c:606-618).

## Model

| member | source | states |
|---|---|---|
| Memory.Lookup | passe-partout.c:58 | a lookup that succeeds returns a mapping covering the address, with the offset of the address in it |
| Memory.LookupFindsFirst | passe-partout.c:58 | the map lookup fails exactly for an unmapped address, and otherwise finds the first mapping that covers it |
| Memory.IsValidAddress | passe-partout.c:53-59 | -1 for an address not a multiple of the pointer size, without consulting the map; otherwise 0 exactly when the address is mapped, and 1 when it is not |
| Memory.ExtractFromMem | passe-partout.c:167-176 | a result is a location in a cached snapshot whose mapping covers the address, at the offset of the address in it modulo 2^32 (the `unsigned int off` of line 169); the size argument plays no part |
| Memory.ExtractFromMemFails | passe-partout.c:167-176 | NULL exactly when no mapping covers the address, or the first mapping that covers it has no snapshot |
| Memory.Span | passe-partout.c:610-618 | the `len` bytes an fwrite reads: exactly the snapshot bytes from the location's offset to offset + len; none exactly when `len` is negative or offset + len runs past the mapping's size |
| Gates.MightBeRsa | passe-partout.c:64-76 | admits (0) exactly when pad and version are 0, 0 <= references <= 255, and all eight integer pointers are aligned and mapped; otherwise 1 |
| Gates.MightBeDsa | passe-partout.c:81-93 | the same shape over p, q, g, priv_key and pub_key; a NULL kinv or r is admitted, and a non-NULL one must be aligned and mapped |
| Gates.MightBeX509 | passe-partout.c:95-111 | admits exactly when valid == 1, 1 <= references <= 255, and cert_info, sig_alg, signature and name are aligned and mapped |
| Gates.MightBeEc | passe-partout.c:156-165 | admits exactly when version == 1, conv_form is 4 or 6, 0 <= references <= 255, and group, pub_key and priv_key are aligned and mapped |
| Bignum.IsValidBn | passe-partout.c:178-189 | 0 exactly when 0 <= top <= dmax and neg is 0 or 1, else -1 |
| Bignum.ExtractBnCases | passe-partout.c:204-237 | no integer exactly when the header address is unmapped or uncached, the header fails is_valid_BN, or the limb address is unmapped or uncached; otherwise a copy keeping top, dmax, neg and flags, whose limb pointer is the snapshot location of `d` |
| Bignum.BnExtractFromMem | passe-partout.c:204-237 | the method returns that integer, with error 1 exactly when it returns none |
| Bignum.ExtractedCountIsFirstFailure | passe-partout.c:344-359 | every integer before the extracted count extracts, and the one at the count, if any, does not |
| Bignum.SlotAfterOwned | passe-partout.c:344-359 | after an in-order extraction, a field holds a copy exactly when it and every field before it extract, and then the copy of its own integer; it is NULL exactly when it is the first that fails; it keeps its raw pointer exactly when an earlier one failed |
| Bignum.FreeChainIsLifo | passe-partout.c:384-398 | the goto chain entered at the label of the k-th field frees exactly the first k fields, last first |
| Bignum.FreeChainFreesPrefix | passe-partout.c:384-398 | a field is freed by the chain exactly when it is one of the first k |
| Bignum.FreeChainNoDuplicates | passe-partout.c:384-398 | a chain over an order without repetitions frees no field twice |
| RsaKeys.RsaIntegersCases | passe-partout.c:344-359 | the key is assembled exactly when all eight integers n, e, d, p, q, dmp1, dmq1, iqmp extract, and then from their copies |
| RsaKeys.RsaStatusCases | passe-partout.c:344-400 | extract_rsa_key returns 0 exactly when all eight extract and RSA_check_key answers 1; any other answer, or a failed extraction, gives -1 |
| RsaKeys.FreedIffBefore | passe-partout.c:384-398 | the chain entered at label k frees an integer exactly when its position in the order is below k |
| RsaKeys.RsaReleasesOwned | passe-partout.c:344-400 | a rejection frees exactly the fields that hold an extracted copy: if the k-th extraction fails, the first k-1 are freed; no field is freed twice |
| RsaKeys.RsaKey.ExtractIntegers | passe-partout.c:344-359 | each field in turn replaced by BN_extract_from_mem, stopping at the first error; returns the count that extracted |
| RsaKeys.RsaKey.Extract | passe-partout.c:329-401 | returns the status above; the fields are left as the in-order extraction leaves them; the six library pointers are nulled once all eight are in; freed are exactly the chain from the last extracted field on failure, all eight after a check other than 1, nothing on success; success yields the assembled key |
| RsaKeys.RsaKey.Free | passe-partout.c:403-412 | free_rsa_key frees all eight integers, iqmp first and n last |
| DsaKeys.DsaStatusCases | passe-partout.c:438-509 | extract_dsa_key returns 0 exactly when the five mandatory integers extract, BN_new and BN_CTX_new allocate, BN_mod_exp reports success and its result compares equal to pub_key under BN_cmp (sign, `top`, then value); it ends the process exactly when all five extract and BN_new fails; otherwise it returns -1 |
| DsaKeys.ModExp | passe-partout.c:474 | a value BN_mod_exp leaves in `res` is below a modulus greater than 1 |
| DsaKeys.ModExpIsModularPower | passe-partout.c:470-474 | for a non-negative g, a non-zero x and p, and no constant-time flag with an even p, BN_mod_exp succeeds with y = g^x mod p, the relation the comment at lines 470-472 states |
| DsaKeys.RollbackFreesOwned | passe-partout.c:493-507 | the rollback after k mandatory extractions frees exactly the fields holding a copy, r and kinv included once all five are in |
| DsaKeys.RollbackNoDuplicates | passe-partout.c:493-507 | the rollback frees no field twice, r and kinv included |
| DsaKeys.DsaReleasesOwned | passe-partout.c:438-509 | after the extraction of a candidate, the rollback frees exactly the fields that hold an extracted copy, none of them twice |
| DsaKeys.CheckKey | passe-partout.c:461-490 | the allocation, exponentiation and comparison return the key check: err() on a failed BN_new, -1 on a failed BN_CTX_new or BN_mod_exp or when BN_cmp finds a difference, 0 on equality |
| DsaKeys.DsaKey.ExtractMandatory | passe-partout.c:438-448 | priv_key, pub_key, p, q, g replaced in turn by their copies, stopping at the first error; returns the count |
| DsaKeys.DsaKey.ExtractOptional | passe-partout.c:449-452 | kinv and r each replaced by a copy, or NULL when it does not extract, without aborting |
| DsaKeys.DsaKey.Complete | passe-partout.c:449-509 | kinv and r extracted, method_mont_p, meth and engine nulled, the key checked, and on -1 every field holding a copy freed |
| DsaKeys.DsaKey.Extract | passe-partout.c:426-511 | returns the status above; a failure frees the extracted mandatory integers last first; -1 after the check frees every copy, kinv and r included; err() and acceptance free nothing |
| DsaKeys.DsaKey.Free | passe-partout.c:513-521 | free_dsa_key frees r and kinv when non-NULL, then g, q, p, pub_key, priv_key |
| EcKeys.EcStatusCases | passe-partout.c:523-536 | extract_ecdsa_key succeeds exactly when the private key's BIGNUM extracts; no algebraic check |
| EcKeys.EcKey.Extract | passe-partout.c:523-536 | the private key field is replaced by its copy or NULL, and 0 is returned exactly when the copy was made |
| Filenames.DecimalRoundTrip | passe-partout.c:251 | the `%d` rendering of an index reads back as that index |
| Filenames.KeyFileNameInjective | passe-partout.c:251 | different indices give different `prefix-i.key` names |
| Filenames.GetValidFilename | passe-partout.c:249-262 | the name for the smallest i < 255 whose file does not exist, and NULL exactly when prefix-0.key ... prefix-254.key all exist |
| Certificates.SanitizedNameIsLocal | passe-partout.c:586-587 | sanitising keeps the length, letters and digits, turns every other byte into '_', and leaves no '/' and no NUL |
| Certificates.SanitizeIdempotent | passe-partout.c:586-587 | sanitising a sanitised name changes nothing |
| Certificates.NulIndex | passe-partout.c:586 | the first NUL from a start index below a limit, or none found in that range |
| Certificates.SanitizeInPlace | passe-partout.c:586-587 | the loop over namebuf replaces each byte before the first NUL that is not alphanumeric by '_', and leaves the NUL and everything after it alone |
| Certificates.CopyName | passe-partout.c:582 | strncpy of a name whose NUL is at n < 59: the first n bytes copied, NUL up to byte 59, the rest untouched |
| Certificates.AppendDer | passe-partout.c:588 | strcat of ".der": the file name is the bytes before the old terminator followed by ".der"; namebuf holds that name, then a NUL, then its old bytes |
| Certificates.SubjectFileName | passe-partout.c:582-588 | for a subject name ending within the 59 copied bytes, the file name is the sanitised name followed by ".der" |
| Certificates.Be16Inverse | passe-partout.c:607-609 | the two length octets written by htons read back as the length mod 2^16, and no other pair does |
| Certificates.DerLengthField | passe-partout.c:606-618 | the output starts 30 82, and its big-endian length octets equal, mod 2^16, the number of bytes after the first four |
| Certificates.EmitDer | passe-partout.c:606-618 | the successive fwrites produce 30 82 LL LL, body, 30 0d 06, the OID length octet, OID, 05 00, 03 82 01 01, 00, signature |
| Certificates.TlvLengthPrefix | passe-partout.c:610 | the length of a DER element read from its header does not depend on what follows it |
| Certificates.OuterRoundTrip | passe-partout.c:606-610 | the outer SEQUENCE header reads back exactly when the contents fit 16 bits |
| Certificates.AlgorithmRoundTrip | passe-partout.c:611-614 | the fixed AlgorithmIdentifier reads back as its OID exactly when the OID has 9 bytes |
| Certificates.BitStringRoundTrip | passe-partout.c:615-618 | the fixed BIT STRING reads back as its signature exactly when the signature has 256 bytes |
| Certificates.DerImageRoundTrip | passe-partout.c:606-618 | the written certificate reads back as the body, OID and signature it was made from exactly when the OID has 9 bytes, the signature 256 and the total fits the 16-bit length |
| Certificates.ParsedCertificateIsDerImage | passe-partout.c:606-618 | every input of that shape with a 9-byte OID and a 256-byte signature is exactly what the branch writes for its parts |
| Certificates.CertOutcomeCases | passe-partout.c:579-624 | a file is created only for a name starting with '/' and a cert_info that resolves; it holds a certificate only when the body, the algorithm object and the signature data were all found; it is left empty exactly when one of them was not |
| Certificates.CertFileNameShape | passe-partout.c:582-591 | the file opened is '_' followed by at most 57 sanitised bytes and ".der", with no '/' and no NUL |
| Certificates.ReconstructCertificate | passe-partout.c:578-624 | the branch computes the outcome above for the candidate |
| Certificates.WriteFragments | passe-partout.c:592-621 | once the file is open: the fragments are resolved and the certificate written exactly as the outcome says |
| Scanner.LastBeforeWrap | passe-partout.c:558 | the largest aligned value of the 32-bit counter from off before `j += 8` wraps |
| Scanner.CombineEvents | passe-partout.c:562-653 | at one offset: an RSA key skips every other type; an X509 hit does not skip; DSA is tried unless the certificate branch was undefined; EC is tried unless a DSA key was found or the DSA check exited; where the scan stops |
| Scanner.CombineShape | passe-partout.c:562-653 | the events of one offset are at that offset, in the try order RSA, X509, DSA, EC, at most two of them, and only the last can stop the scan |
| Scanner.StepShape | passe-partout.c:562-653 | the same, for the iteration at any offset of a snapshot |
| Scanner.StepsAtOffset | passe-partout.c:562-653 | every event of every iteration is at that iteration's offset |
| Scanner.StepsRanked | passe-partout.c:562-653 | every iteration's events are in the try order RSA, X509, DSA, EC |
| Scanner.StepsStopLast | passe-partout.c:562-653 | in every iteration, an event that ends the scan is the last event, exactly when the iteration ends the scan |
| Scanner.GoesOnBeforeShift | passe-partout.c:558 | the loop reaches offset i from j exactly when the iteration at j goes on and the loop reaches i from j+8 |
| Scanner.ScanBounds | passe-partout.c:558 | the loop reports only offsets j, j+8, ... up to end |
| Scanner.ScanSorted | passe-partout.c:558 | reports come by increasing offset and, at one offset, in the try order |
| Scanner.ScanStopsLast | passe-partout.c:558-654 | an event that ends the scan is the last one reported |
| Scanner.ScanComplete | passe-partout.c:558-654 | every event of an offset the loop reaches is reported |
| Scanner.ScanSound | passe-partout.c:558-654 | every reported event is an event of the iteration at its own aligned offset within off..end |
| Scanner.ScanReached | passe-partout.c:558-654 | no iteration before a reported event's offset ended the scan |
| Scanner.ScanReports | passe-partout.c:558-654 | an event is reported exactly when it belongs to an aligned offset within off..end that the loop reaches |
| Scanner.ScanFromReports | passe-partout.c:558-654 | find_keys reports an event exactly when it belongs to an offset off, off+8, ... <= end that the loop reaches |
| Scanner.ScanFromBounds | passe-partout.c:558 | find_keys looks only at off, off+8, ... up to end |
| Scanner.ScanFromSorted | passe-partout.c:558-654 | find_keys reports in increasing offset order and, at one offset, in the order RSA, X509, DSA, EC |
| Scanner.ScanFromStopsLast | passe-partout.c:558-654 | err() in the DSA check, or undefined behaviour in the certificate branch, is the last thing reported |
| Scanner.TryRsa | passe-partout.c:562-572 | the RSA window: the key when the gate admits it and extract_rsa_key returns 0; the fields freed are none when the gate refuses, otherwise exactly those that held a copy, none twice, and all eight, iqmp first, after a hit |
| Scanner.TryCert | passe-partout.c:576-624 | the X509 window: the certificate branch's outcome when the gate admits it |
| Scanner.TryDsa | passe-partout.c:627-639 | the DSA window: the assembler's result when the gate admits it; the fields freed are none when the gate refuses or err() is called, otherwise exactly those that held a copy, none twice |
| Scanner.TryEc | passe-partout.c:642-652 | the EC window: the private key when the gate admits it and extract_ecdsa_key returns 0 |
| Scanner.ScanOffset | passe-partout.c:562-653 | one loop body: RSA and X509 only when j <= size - sizeof(RSA), DSA only when j <= size - sizeof(DSA), EC only when j <= size - sizeof(EC_KEY_), each subtraction wrapping modulo 2^64; `continue` after an RSA, DSA or EC key |
| Scanner.StepFits | passe-partout.c:563-653 | an RSA key or certificate is reported at j only when j passes the RSA fit check (exactly when the decoders then find it), a DSA key or the DSA err() only under the DSA fit, an EC key only under the EC fit |
| Scanner.FitsReading | passe-partout.c:563 | what `j <= map->size - sizeof(T)` admits with its size_t wrap: every 32-bit counter value when the mapping is smaller than the record, otherwise exactly the offsets where the record lies inside the mapping |
| Scanner.FindKeys | passe-partout.c:540-657 | the loop over j = off, off+8, ... while j <= end reports exactly the scan of off..end |

## Left out

- Attaching to the process, listing and caching its mappings, and `main`: the captured map is an input. `dbg.h` is not part of this model.
- PEM writing (`write_rsa_key`, `write_dsa_key`, `write_ecdsa_key`), `stat`, `fopen`, `fwrite`, `fclose`, `puts` and `printf`: these are I/O. The certificate file is represented by its name and the bytes written to it; a found key is represented by an event.
- Structure layouts: the sizes of `RSA` (168), `DSA` (136) and `EC_KEY_` (56) are constants, and reading a record from a window is an abstract decoder. Reads past the end of a snapshot are modelled only through what the decoder returns.
- The X509 window has no fit check of its own in the source; the model decodes it under the RSA fit check, as the code does.
- `RSA_check_key` is an oracle from the assembled key to its answer.
- `BN_new`, `BN_CTX_new` and the allocations inside `BN_mod_exp` are flags given per offset.
- DsaKeys.KeyCheck: `BN_mod_exp` and `BN_cmp` belong to OpenSSL, whose `bn_exp.c` and `bn_lib.c` are not part of this model. ModExp follows the OpenSSL 1.0.1 routines, in their order: with an even modulus (zero included), an exponent flagged constant-time gets -1 back, which the caller takes for success with `res` left at zero; otherwise a zero exponent gives 1 whatever the modulus; a zero modulus with a non-zero exponent fails; otherwise g, with its sign, is raised to the magnitude of x and reduced into 0 .. |p|-1. What is simplified: a negative modulus is taken by its magnitude, failures inside the library other than a zero modulus are one flag, and limbs are compared through the abstract limb decoder, so two limb arrays with the same `top` compare equal exactly when they denote the same value.
- DsaKeys.SameBn: the limb decoder `Abi.limbs` is abstract and unconstrained. SameBn matches BN_cmp, and ModExp's zero-exponent test matches BN_is_zero, only when the decoder is positional, that is `limbs(_, _, t) < 2^(64*t)` and so 0 for `top == 0`. The model assumes such a decoder without requiring one. No proved result depends on it, since every lemma holds for every decoder.
- DsaKeys.DsaStatusCases: states the check through ModExp and SameBn, with the simplifications listed for KeyCheck.
- DsaKeys.CheckKey: computes KeyCheck, with the simplifications listed for KeyCheck.
- The limbs a BIGNUM copy points to are not copied and not bounds-checked. Line 229 resolves `top * sizeof(BN_ULONG)` bytes without checking that they fit in the mapping. Magnitude reads them through an abstract decoder.
- The `malloc` failure exit in BN_extract_from_mem (lines 217-219) is left out.
- Freeing is modelled as a ghost list of freed field names. The memory itself is not modelled.
- The `err()` exit of the DSA check is modelled as an `Exited` outcome that ends the scan.
- Certificates.SubjectFileName: requires the subject name to end within the first 59 bytes. A longer name makes the sanitising loop read the uninitialised `namebuf[59]`. This case, negative lengths, fragments running past the snapshot, and a missing OID with a non-zero length are modelled only as the outcome `CertUndefined`, after which the model ends the scan.
- Certificates.CopyName: the bytes of `namebuf` that the source leaves uninitialised are modelled as zero; they are never read when the name is short enough.
- get_valid_filename writes into a 128-byte buffer. A prefix long enough to overflow it is not modelled: names are unbounded strings.
- Scanner.FindKeys: requires `end` to be below the last counter value before the 32-bit `j += 8` wraps. Otherwise the source loop never ends.
- The EC key found by the scan is not freed; the source leaks it too.
- The command-line parsing of `main` is left out. That includes the `-a` alignment rule and the range auto-extension.
