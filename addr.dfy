/**
 * The address review items of app/src/addr.c: how many items the address screen
 * has, and which key and paged value each index yields, in normal and expert mode.
 *
 * The renderers the source calls (addr_to_textual, array_to_hexstr,
 * bip32_to_str) are not part of this model: their outputs arrive as the fields
 * of `Rendered`. pageString is given by the paging rule of the review screens.
 */
module Addr {
  import opened Bytes

  type int8 = x: int | -128 <= x < 128

  /** zxerr_t as far as this file distinguishes it: ok, no data, or any other error a renderer reports. */
  datatype ZxErr = ZxOk | ZxNoData | ZxOther(code: int)

  /** The renderers' results for the current address and path. */
  datatype Rendered = Rendered(
    principalStatus: ZxErr,
    principalText: string,
    addressHex: string,
    pathText: string)

  const KEY_PRINCIPAL: string := "Principal"
  const KEY_ADDRESS: string := "Address"
  const KEY_PATH: string := "Path"

  /** snprintf(out, n, s) with a literal `s`: nothing is written into a zero-sized buffer, otherwise at most n - 1 characters. */
  function Snprintf(previous: string, s: string, n: nat): (out: string)
    ensures n == 0 ==> out == previous
    ensures n > 0 ==> out <= s && |out| == if |s| < n then |s| else n - 1
  {
    if n == 0 then previous else if |s| < n then s else s[..n - 1]
  }

  // ---------------------------------------------------------------- paging

  /** The pages of `value` at display width `width`: full pages, then a shorter last page. */
  function Chunks(value: string, width: nat): (pages: seq<string>)
    requires width > 0
    ensures forall i :: 0 <= i < |pages| ==> 0 < |pages[i]| <= width
    decreases |value|
  {
    if value == [] then []
    else if |value| <= width then [value]
    else [value[..width]] + Chunks(value[width..], width)
  }

  function Concat(pages: seq<string>): string
    decreases |pages|
  {
    if pages == [] then [] else pages[0] + Concat(pages[1..])
  }

  /**
   * pageString: page `pageIdx` of the value at `outValLen - 1` characters per page
   * (one is kept for the terminator), and the page count. The count is
   * ceil(L / W), every page fits, only the last may be short, a page index past
   * the end yields an empty page, and the pages put back together give the value.
   */
  function PageString(value: string, outValLen: u16, pageIdx: byte): (r: (string, nat))
    requires outValLen >= 2
    ensures var (page, count) := r;
      var width := outValLen - 1;
      && count == |Chunks(value, width)|
      && (count == 0 <==> value == [])
      && (count - 1) * width < |value| <= count * width
      && |page| <= width
      && (pageIdx >= count ==> page == [])
      && (pageIdx + 1 < count ==> |page| == width)
      && Concat(Chunks(value, width)) == value
  {
    var width := outValLen - 1;
    LemmaChunkCount(value, width);
    LemmaChunksReassemble(value, width);
    LemmaFullPages(value, width, pageIdx);
    var pages := Chunks(value, width);
    (if pageIdx < |pages| then pages[pageIdx] else [], |pages|)
  }

  /** The pages put back together give the value. */
  lemma {:induction false} LemmaChunksReassemble(value: string, width: nat)
    requires width > 0
    ensures Concat(Chunks(value, width)) == value
    decreases |value|
  {
    if value != [] && |value| > width {
      LemmaChunksReassemble(value[width..], width);
      var pages := Chunks(value, width);
      assert pages[1..] == Chunks(value[width..], width);
      assert value == value[..width] + value[width..];
    }
  }

  /** A value of length L at width W has exactly ceil(L / W) pages: the fewest pages of W characters that hold L. */
  lemma {:induction false} LemmaChunkCount(value: string, width: nat)
    requires width > 0
    ensures var count := |Chunks(value, width)|;
      (count == 0 <==> value == []) && (count - 1) * width < |value| <= count * width
    decreases |value|
  {
    if value != [] && |value| > width {
      LemmaChunkCount(value[width..], width);
      var c := |Chunks(value[width..], width)|;
      assert |Chunks(value, width)| == c + 1;
      assert (c + 1) * width == c * width + width;
      assert (c - 1) * width == c * width - width;
    }
  }

  lemma {:induction false} LemmaFullPages(value: string, width: nat, i: nat)
    requires width > 0
    ensures i + 1 < |Chunks(value, width)| ==> |Chunks(value, width)[i]| == width
    decreases |value|
  {
    if value != [] && |value| > width && i > 0 {
      LemmaFullPages(value[width..], width, i - 1);
    }
  }

  // ---------------------------------------------------------------- items

  /** addr_getNumItems: 2 items, 3 in expert mode. */
  function NumItems(expert: bool): (n: byte)
    ensures n == 2 || n == 3
    ensures n == 3 <==> expert
  {
    if expert then 3 else 2
  }

  method GetNumItems(expert: bool) returns (err: ZxErr, numItems: byte)
    ensures err == ZxOk && numItems == NumItems(expert)
  {
    numItems := 2;
    if expert {
      numItems := 3;
    }
    err := ZxOk;
  }

  /** The outputs of addr_getItem: status, key buffer, value buffer and page count. */
  datatype ItemOut = ItemOut(err: ZxErr, key: string, value: string, pageCount: nat)

  /** addr_getItem as a function of its inputs and of the output buffers' previous contents. */
  function Item(displayIdx: int8, outKeyLen: u16, outValLen: u16, pageIdx: byte, expert: bool, rendered: Rendered, before: ItemOut): (out: ItemOut)
    requires outValLen >= 2
    ensures out.err == ZxOk ==> 0 <= displayIdx < NumItems(expert)
    ensures out.err != ZxOk ==> out.value == before.value && out.pageCount == before.pageCount
  {
    if displayIdx == 0 then
      var key := Snprintf(before.key, KEY_PRINCIPAL, outKeyLen);
      if rendered.principalStatus != ZxOk then before.(err := rendered.principalStatus, key := key)
      else
        var (page, count) := PageString(rendered.principalText, outValLen, pageIdx);
        ItemOut(ZxOk, key, page, count)
    else if displayIdx == 1 then
      var (page, count) := PageString(rendered.addressHex, outValLen, pageIdx);
      ItemOut(ZxOk, Snprintf(before.key, KEY_ADDRESS, outKeyLen), page, count)
    else if displayIdx == 2 && expert then
      var (page, count) := PageString(rendered.pathText, outValLen, pageIdx);
      ItemOut(ZxOk, Snprintf(before.key, KEY_PATH, outKeyLen), page, count)
    else before.(err := ZxNoData)
  }

  /** addr_getItem, writing its out-parameters. */
  method GetItem(displayIdx: int8, outKeyLen: u16, outValLen: u16, pageIdx: byte, expert: bool, rendered: Rendered, before: ItemOut)
    returns (err: ZxErr, outKey: string, outVal: string, pageCount: nat)
    requires outValLen >= 2
    ensures ItemOut(err, outKey, outVal, pageCount) == Item(displayIdx, outKeyLen, outValLen, pageIdx, expert, rendered, before)
  {
    outKey, outVal, pageCount := before.key, before.value, before.pageCount;
    match displayIdx {
      case 0 =>
        outKey := Snprintf(outKey, KEY_PRINCIPAL, outKeyLen);
        if rendered.principalStatus != ZxOk {
          return rendered.principalStatus, outKey, outVal, pageCount;
        }
        outVal, pageCount := PageString(rendered.principalText, outValLen, pageIdx).0, PageString(rendered.principalText, outValLen, pageIdx).1;
        return ZxOk, outKey, outVal, pageCount;
      case 1 =>
        outKey := Snprintf(outKey, KEY_ADDRESS, outKeyLen);
        outVal, pageCount := PageString(rendered.addressHex, outValLen, pageIdx).0, PageString(rendered.addressHex, outValLen, pageIdx).1;
        return ZxOk, outKey, outVal, pageCount;
      case 2 =>
        if !expert {
          return ZxNoData, outKey, outVal, pageCount;
        }
        outKey := Snprintf(outKey, KEY_PATH, outKeyLen);
        outVal, pageCount := PageString(rendered.pathText, outValLen, pageIdx).0, PageString(rendered.pathText, outValLen, pageIdx).1;
        return ZxOk, outKey, outVal, pageCount;
      case _ =>
        return ZxNoData, outKey, outVal, pageCount;
    }
  }

  /** Index 0 is the principal and index 1 the address, in either mode. */
  lemma LemmaFixedItems(outKeyLen: u16, outValLen: u16, pageIdx: byte, expert: bool, rendered: Rendered, before: ItemOut)
    requires outValLen >= 2 && outKeyLen > |KEY_PRINCIPAL|
    ensures var out := Item(0, outKeyLen, outValLen, pageIdx, expert, rendered, before);
      out.key == KEY_PRINCIPAL
      && (rendered.principalStatus == ZxOk ==> out.err == ZxOk && (out.value, out.pageCount) == PageString(rendered.principalText, outValLen, pageIdx))
      && (rendered.principalStatus != ZxOk ==> out.err == rendered.principalStatus && out.value == before.value)
    ensures var out := Item(1, outKeyLen, outValLen, pageIdx, expert, rendered, before);
      out.err == ZxOk && out.key == KEY_ADDRESS && (out.value, out.pageCount) == PageString(rendered.addressHex, outValLen, pageIdx)
  {
  }

  /** Index 2, the path, exists only in expert mode. */
  lemma LemmaPathOnlyInExpert(outKeyLen: u16, outValLen: u16, pageIdx: byte, expert: bool, rendered: Rendered, before: ItemOut)
    requires outValLen >= 2 && outKeyLen > |KEY_PATH|
    ensures var out := Item(2, outKeyLen, outValLen, pageIdx, expert, rendered, before);
      && (!expert ==> out == before.(err := ZxNoData))
      && (expert ==> out.err == ZxOk && out.key == KEY_PATH && (out.value, out.pageCount) == PageString(rendered.pathText, outValLen, pageIdx))
  {
  }

  /** Any index outside 0..2, negative ones included, has no data and leaves the buffers alone. */
  lemma LemmaOutOfRangeNoData(displayIdx: int8, outKeyLen: u16, outValLen: u16, pageIdx: byte, expert: bool, rendered: Rendered, before: ItemOut)
    requires outValLen >= 2 && (displayIdx < 0 || displayIdx > 2)
    ensures Item(displayIdx, outKeyLen, outValLen, pageIdx, expert, rendered, before) == before.(err := ZxNoData)
  {
  }

  /** Count and items agree: an index has data exactly when it is below the item count. */
  lemma LemmaCountMatchesItems(displayIdx: int8, outKeyLen: u16, outValLen: u16, pageIdx: byte, expert: bool, rendered: Rendered, before: ItemOut)
    requires outValLen >= 2 && rendered.principalStatus != ZxNoData
    ensures Item(displayIdx, outKeyLen, outValLen, pageIdx, expert, rendered, before).err == ZxNoData
            <==> !(0 <= displayIdx < NumItems(expert))
  {
  }
}
